/**
 * `check_repeats` (src/main.rs:91-98): the smallest period of a string,
 * found by keeping an ordered map from candidate offsets to character
 * iterators and discarding every candidate whose iterator disagrees with
 * the character just read.
 */
module Periodicity {
  import opened Common

  /**
   * `p` is a period of the first `n` characters of `s`: `n` is at most `p`,
   * or the `n`-th character equals the one `p` places earlier and `p` is a
   * period of the first `n - 1`. So every character equals the one `p`
   * places earlier (PeriodChars).
   */
  predicate PeriodOfPrefix(s: string, n: nat, p: nat)
    requires n <= |s|
  {
    0 < p && (n <= p || (s[n - 1] == s[n - 1 - p] && PeriodOfPrefix(s, n - 1, p)))
  }

  /** `p` is a period of `s`. */
  predicate IsPeriod(s: string, p: nat) {
    PeriodOfPrefix(s, |s|, p)
  }

  lemma {:induction false} PeriodChars(s: string, n: nat, p: nat)
    requires n <= |s| && 0 < p
    ensures PeriodOfPrefix(s, n, p) <==> forall i :: p <= i < n ==> s[i] == s[i - p]
  {
    if n > p {
      PeriodChars(s, n - 1, p);
    }
  }
  /** The least period of `s` that is at least `from`; `|s|` is always a period. */
  function LeastPeriodFrom(s: string, from: nat): (p: nat)
    requires 1 <= from <= |s|
    ensures from <= p <= |s| && IsPeriod(s, p)
    ensures forall q :: from <= q < p ==> !IsPeriod(s, q)
    decreases |s| - from
  {
    if from == |s| || IsPeriod(s, from) then from else LeastPeriodFrom(s, from + 1)
  }

  /** The smallest period of a non-empty string. */
  function SmallestPeriod(s: string): (p: nat)
    requires |s| > 0
    ensures 1 <= p <= |s| && IsPeriod(s, p)
    ensures forall q :: 0 < q < p ==> !IsPeriod(s, q)
  {
    LeastPeriodFrom(s, 1)
  }

  /**
   * One entry of the `BTreeMap` named `delays`: the candidate period
   * (the key) and how far its `s.chars()` iterator has advanced.
   */
  datatype Candidate = Candidate(offset: nat, cursor: nat)

  /**
   * `delays.retain(|_, iter| iter.next() == Some(c))`: in key order, keep
   * the candidates whose iterator yields `c`, each one step further on.
   */
  function Retain(delays: seq<Candidate>, s: string, c: char): (kept: seq<Candidate>)
    ensures |kept| <= |delays|
    ensures forall i :: 0 <= i < |kept| ==> kept[i].cursor >= 1
  {
    if delays == [] then []
    else
      var d := delays[0];
      (if d.cursor < |s| && s[d.cursor] == c then [Candidate(d.offset, d.cursor + 1)] else [])
      + Retain(delays[1..], s, c)
  }

  lemma {:induction false} RetainAppend(a: seq<Candidate>, b: seq<Candidate>, s: string, c: char)
    ensures Retain(a + b, s, c) == Retain(a, s, c) + Retain(b, s, c)
  {
    if a == [] {
      assert a + b == b;
    } else {
      assert (a + b)[0] == a[0];
      assert (a + b)[1..] == a[1..] + b;
      RetainAppend(a[1..], b, s, c);
    }
  }

  /**
   * The entries of `delays` after the first `n` characters have been read:
   * every offset `k..n` that is a period of `s[..n]`, its iterator at `n - k`.
   */
  ghost function Survivors(s: string, n: nat, k: nat): seq<Candidate>
    requires 1 <= k <= n + 1 && n <= |s|
    decreases n + 1 - k
  {
    if k > n then [] else Entry(s, n, k) + Survivors(s, n, k + 1)
  }

  /** The entry for offset `k` after `n` characters, if that offset is still a candidate. */
  ghost function Entry(s: string, n: nat, k: nat): seq<Candidate>
    requires 1 <= k <= n <= |s|
  {
    if PeriodOfPrefix(s, n, k) then [Candidate(k, n - k)] else []
  }

  /** Reading `c` with a single candidate keeps it, one step on, exactly when its iterator yields `c`. */
  lemma RetainSingle(d: Candidate, s: string, c: char)
    ensures Retain([d], s, c) == if d.cursor < |s| && s[d.cursor] == c then [Candidate(d.offset, d.cursor + 1)] else []
  {
    assert [d][1..] == [];
  }

  /** Reading `s[n]` keeps the entry for `k` exactly when `k` stays a period. */
  lemma RetainEntry(s: string, n: nat, k: nat)
    requires 1 <= k <= n < |s|
    ensures Retain(Entry(s, n, k), s, s[n]) == Entry(s, n + 1, k)
  {
    if PeriodOfPrefix(s, n, k) {
      RetainSingle(Candidate(k, n - k), s, s[n]);
    }
  }

  /** One turn of the loop body turns the survivors of `n` characters into those of `n + 1`. */
  lemma {:induction false} RetainStep(s: string, n: nat, k: nat)
    requires n < |s| && 1 <= k <= n + 1
    ensures Retain(Survivors(s, n, k), s, s[n]) + [Candidate(n + 1, 0)] == Survivors(s, n + 1, k)
    decreases n + 1 - k, 1
  {
    if k == n + 1 {
      NewCandidate(s, n);
    } else {
      RetainCons(s, n, k);
    }
  }

  /** The offset `n + 1` enters with its iterator at the start. */
  lemma NewCandidate(s: string, n: nat)
    requires n < |s|
    ensures Retain(Survivors(s, n, n + 1), s, s[n]) + [Candidate(n + 1, 0)] == Survivors(s, n + 1, n + 1)
  {
    assert Survivors(s, n + 1, n + 2) == [];
  }

  /** The step for offset `k`, from the step for the offsets after it. */
  lemma {:induction false} RetainCons(s: string, n: nat, k: nat)
    requires n < |s| && 1 <= k <= n
    ensures Retain(Survivors(s, n, k), s, s[n]) + [Candidate(n + 1, 0)] == Survivors(s, n + 1, k)
    decreases n + 1 - k, 0
  {
    var e, e' := Entry(s, n, k), Entry(s, n + 1, k);
    var rest := Survivors(s, n, k + 1);
    var kept := Retain(rest, s, s[n]);
    var entering := [Candidate(n + 1, 0)];
    calc {
      Retain(Survivors(s, n, k), s, s[n]) + entering;
      Retain(e + rest, s, s[n]) + entering;
      { RetainAppend(e, rest, s, s[n]); RetainEntry(s, n, k); }
      (e' + kept) + entering;
      e' + (kept + entering);
      { RetainStep(s, n, k + 1); }
      e' + Survivors(s, n + 1, k + 1);
      Survivors(s, n + 1, k);
    }
  }

  /** After the whole string, the first surviving key is the least period. */
  lemma {:induction false} FirstSurvivor(s: string, k: nat)
    requires 1 <= k <= |s|
    ensures Survivors(s, |s|, k) != [] && Survivors(s, |s|, k)[0].offset == LeastPeriodFrom(s, k)
    decreases |s| - k
  {
    if k < |s| && !IsPeriod(s, k) {
      FirstSurvivor(s, k + 1);
    }
  }

  /**
   * `check_repeats(s)`: `None` stands for the panic of `unwrap` on the empty
   * map, which is what an empty `s` leaves.
   */
  method CheckRepeats(s: string) returns (r: Option<nat>)
    ensures r.None? <==> |s| == 0
    ensures r.Some? ==> 1 <= r.value <= |s| && IsPeriod(s, r.value)
    ensures r.Some? ==> forall q :: 0 < q < r.value ==> !IsPeriod(s, q)
    ensures r.Some? ==> r.value == SmallestPeriod(s)
  {
    var delays: seq<Candidate> := [];
    var i := 0;
    while i < |s|
      invariant 0 <= i <= |s|
      invariant delays == Survivors(s, i, 1)
    {
      RetainStep(s, i, 1);
      delays := Retain(delays, s, s[i]);
      delays := delays + [Candidate(i + 1, 0)];
      i := i + 1;
    }
    if |s| > 0 {
      FirstSurvivor(s, 1);
    }
    if delays == [] {
      return None;
    }
    r := Some(delays[0].offset);
  }
}
