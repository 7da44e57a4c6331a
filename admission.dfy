/**
 * What the server accepts and what it re-broadcasts: the length validators
 * of the `Message` form (src/main.rs:23-32), the reserved user names
 * (src/main.rs:18) and the broadcast test of `post` (src/main.rs:134-149,
 * 182-188).
 */
module Admission {
  import opened Common
  import opened Text
  import opened Periodicity

  /** The `Message` form, as Rocket decodes it from the request body. */
  datatype Form = Form(room: string, username: string, message: string, color: string)

  /** `NOT_ALLOWED_UNAMES`. */
  const NotAllowedUnames: seq<string> := ["[system]", "[debug]", "[status]", "system"]

  /**
   * Every reserved name is already lower case, so lower-casing the user name
   * makes the test case-insensitive.
   */
  lemma ReservedNames()
    ensures forall n :: n in NotAllowedUnames ==> LowerAscii(n) == n
  {
    forall n | n in NotAllowedUnames ensures LowerAscii(n) == n {
      NoCapitals(n);
    }
  }

  /** The two names the client writes its own rows under, "System" and "[STATUS]", are reserved. */
  lemma ClientNamesReserved()
    ensures LowerAscii("System") in NotAllowedUnames
    ensures LowerAscii("[STATUS]") in NotAllowedUnames
  {
    OneCapital("System", "system");
    assert NotAllowedUnames[3] == "system";
    OneCapital("[STATUS]", "[status]");
    assert NotAllowedUnames[2] == "[status]";
  }

  lemma NoCapitals(s: string)
    requires forall i :: 0 <= i < |s| ==> !('A' <= s[i] <= 'Z')
    ensures LowerAscii(s) == s
  {
  }

  /** `lower` is `s` with each capital replaced by its small letter. */
  lemma OneCapital(s: string, lower: string)
    requires |s| == |lower|
    requires forall i :: 0 <= i < |s| ==> lower[i] == (if 'A' <= s[i] <= 'Z' then (s[i] as int + 32) as char else s[i])
    ensures LowerAscii(s) == lower
  {
  }

  /** The `#[field(validate = len(..))]` rules; Rocket measures a `String` in bytes. */
  predicate ValidForm(f: Form)
    ensures ValidForm(f) ==> 1 <= |f.room| <= 31 && |f.username| <= 31 && |f.message| <= 65535 && |f.color| <= 23
  {
    && 2 <= Utf8Len(f.room) < 32
    && Utf8Len(f.username) < 32
    && Utf8Len(f.message) < 65536
    && Utf8Len(f.color) < 24
  }

  lemma ValidFormBounds(f: Form)
    ensures ValidForm(f) ==> 1 <= |f.room| <= 31 && |f.username| <= 31 && |f.message| <= 65535 && |f.color| <= 23
    ensures IsAscii(f.room) && IsAscii(f.username) && IsAscii(f.message) && IsAscii(f.color) ==>
      (ValidForm(f) <==> 2 <= |f.room| < 32 && |f.username| < 32 && |f.message| < 65536 && |f.color| < 24)
  {
  }

  /** `i as u8 as usize`: the histogram bucket of a character is its code point truncated to 8 bits. */
  function Bucket(c: char): (b: nat)
    ensures b < 256
    ensures c as int < 256 ==> b == c as int
  {
    c as int % 256
  }

  /** How many characters of `s` fall into bucket `b` (`char_comp[b]` after the loop). */
  function BucketCount(s: string, b: nat): (n: nat)
    ensures n <= |s|
  {
    if s == [] then 0
    else BucketCount(s[..|s| - 1], b) + (if Bucket(s[|s| - 1]) == b then 1 else 0)
  }

  /**
   * `homogenus_comp`: the message is over 50 bytes and one bucket holds more
   * than a quarter of its byte length. The source computes the quarter as
   * `(len as f32 * 0.25) as i32`, which is exactly `len / 4` for every length
   * below 2^24, and a valid form is below 2^16.
   */
  predicate Homogeneous(s: string)
    ensures Homogeneous(s) ==> 13 <= |s|
  {
    Utf8Len(s) > 50 && exists b :: 0 <= b < 256 && BucketCount(s, b) > Utf8Len(s) / 4
  }

  /** The character histogram and threshold test of `post`. */
  method Homogeneity(message: string) returns (homogeneous: bool)
    ensures homogeneous == Homogeneous(message)
  {
    var charComp := new int[256](_ => 0);
    for j := 0 to |message|
      invariant forall b :: 0 <= b < 256 ==> charComp[b] == BucketCount(message[..j], b)
    {
      assert message[..j + 1][..j] == message[..j];
      charComp[Bucket(message[j])] := charComp[Bucket(message[j])] + 1;
    }
    assert message[..|message|] == message;
    homogeneous := false;
    var len := Utf8Len(message);
    if len > 50 {
      for b := 0 to 256
        invariant homogeneous <==> exists b' :: 0 <= b' < b && charComp[b'] > len / 4
      {
        if charComp[b] > len / 4 {
          homogeneous := true;
        }
      }
    }
  }

  /** What `post` does once the message is saved. */
  datatype Verdict =
    | Broadcast     // `queue.send(inner)`
    | Withheld      // the condition at 182-185 holds: nothing is sent
    | RepeatsPanic  // `check_repeats` of an empty string: its `unwrap` panics

  /**
   * The condition of src/main.rs:182-185, evaluated left to right with
   * `||` short-circuiting, so `check_repeats` only runs on a message that
   * is not homogeneous.
   */
  function Admit(f: Form): (v: Verdict)
    ensures v == Broadcast ==> !Homogeneous(f.message) && LowerAscii(f.username) !in NotAllowedUnames && !StartsWith(f.message, "/")
    ensures v == RepeatsPanic ==> forall i :: 0 <= i < |f.message| ==> f.message[i] == ' '
  {
    RemoveAllEmpty(f.message, ' ');
    var m := f.message;
    if Homogeneous(m) then Withheld
    else
      var stripped := RemoveAll(m, ' ');
      if stripped == [] then RepeatsPanic
      else if SmallestPeriod(stripped) != Utf8Len(m) - CountOf(m, ' ') then Withheld
      else if LowerAscii(f.username) in NotAllowedUnames then Withheld
      else if StartsWith(m, "/") then Withheld
      else Broadcast
  }

  /**
   * The test as `post` runs it: the histogram loop, then the condition of
   * src/main.rs:182-185, running `check_repeats` only on a message that is
   * not homogeneous.
   */
  method Screen(f: Form) returns (v: Verdict)
    ensures v == Admit(f)
  {
    var message := f.message;
    var refused := Homogeneity(message);
    if !refused {
      var stripped := RemoveAll(message, ' ');
      var period := CheckRepeats(stripped);
      if period.None? {
        return RepeatsPanic;
      }
      refused := period.value != Utf8Len(message) - CountOf(message, ' ');
    }
    refused := refused || LowerAscii(f.username) in NotAllowedUnames || StartsWith(message, "/");
    v := if refused then Withheld else Broadcast;
  }

  /** A string with no period shorter than itself. */
  predicate Aperiodic(s: string) {
    forall p :: 0 < p < |s| ==> !IsPeriod(s, p)
  }

  lemma {:induction false} Utf8LenMinusSpaces(m: string)
    ensures Utf8Len(m) - CountOf(m, ' ') >= |RemoveAll(m, ' ')|
    ensures Utf8Len(m) - CountOf(m, ' ') == |RemoveAll(m, ' ')| <==> IsAscii(m)
  {
  }

  /**
   * The broadcast test in plain terms: a message goes out exactly when it
   * is not homogeneous, is ASCII (the period, a character count, is compared
   * with a byte count), has a non-space character, has no period shorter
   * than itself once spaces are removed, comes from a name that is not
   * reserved, and does not start with `/`.
   */
  lemma BroadcastIff(f: Form)
    ensures Admit(f) == Broadcast <==>
      && !Homogeneous(f.message)
      && IsAscii(f.message)
      && RemoveAll(f.message, ' ') != []
      && Aperiodic(RemoveAll(f.message, ' '))
      && LowerAscii(f.username) !in NotAllowedUnames
      && !StartsWith(f.message, "/")
  {
    var m := f.message;
    var stripped := RemoveAll(m, ' ');
    Utf8LenMinusSpaces(m);
    if !Homogeneous(m) && stripped != [] {
      var p := SmallestPeriod(stripped);
      if IsAscii(m) && Aperiodic(stripped) {
        assert p == |stripped|;
      }
      if p == Utf8Len(m) - CountOf(m, ' ') {
        assert p == |stripped|;
        assert IsAscii(m);
      }
    }
  }

  /** A text with a non-ASCII character is never broadcast, whatever else holds. */
  lemma NonAsciiWithheld(f: Form)
    requires !IsAscii(f.message)
    ensures Admit(f) != Broadcast
  {
    BroadcastIff(f);
  }

  /**
   * The one way the broadcast test panics: a message of at most 50 bytes
   * made only of spaces (the empty message included). Longer all-space
   * messages are homogeneous, which short-circuits `check_repeats`.
   */
  lemma PanicIff(f: Form)
    ensures Admit(f) == RepeatsPanic <==> Utf8Len(f.message) <= 50 && forall i :: 0 <= i < |f.message| ==> f.message[i] == ' '
  {
    var m := f.message;
    RemoveAllEmpty(m, ' ');
    if forall i :: 0 <= i < |m| ==> m[i] == ' ' {
      AllOneBucket(m, ' ');
      assert IsAscii(m);
      if Utf8Len(m) > 50 {
        assert BucketCount(m, 32) > Utf8Len(m) / 4;
        assert Homogeneous(m);
      }
    }
  }

  lemma {:induction false} AllOneBucket(s: string, c: char)
    requires forall i :: 0 <= i < |s| ==> s[i] == c
    ensures BucketCount(s, Bucket(c)) == |s|
  {
    if s != [] {
      AllOneBucket(s[..|s| - 1], c);
    }
  }

  /**
   * A message whose first and last non-space characters agree (`"wow"`,
   * `"that"`) has a period one shorter than itself and is withheld.
   */
  lemma SameEndsWithheld(f: Form)
    requires |RemoveAll(f.message, ' ')| >= 2
    requires RemoveAll(f.message, ' ')[0] == RemoveAll(f.message, ' ')[|RemoveAll(f.message, ' ')| - 1]
    ensures Admit(f) != Broadcast
  {
    var s := RemoveAll(f.message, ' ');
    assert IsPeriod(s, |s| - 1);
    BroadcastIff(f);
  }
}
