/**
 * Newline trimming of a matched candidate (`sliceNewLines` in main_script.go,
 * `stripNewlines` in main.go; the two are the same code). Only '\n' is removed,
 * and only from the two ends.
 */
module Newlines {

  /** `k` newline characters. */
  function Repeat(k: nat): (r: string)
    ensures |r| == k && forall i :: 0 <= i < k ==> r[i] == '\n'
  {
    if k == 0 then [] else Repeat(k - 1) + ['\n']
  }

  /** Neither the first nor the last character is a newline. */
  predicate NoEdgeNewline(t: string)
  {
    |t| == 0 || (t[0] != '\n' && t[|t| - 1] != '\n')
  }

  /** The trimmed value: edge newlines are dropped one at a time until none is left. */
  function TrimNewlines(s: string): (t: string)
    ensures NoEdgeNewline(t)
    ensures |t| <= |s|
    decreases |s|
  {
    if |s| > 0 && s[0] == '\n' then TrimNewlines(s[1..])
    else if |s| > 0 && s[|s| - 1] == '\n' then TrimNewlines(s[..|s| - 1])
    else s
  }

  /** The loops of `sliceNewLines` / `stripNewlines`: first drop leading newlines,
      then trailing ones. */
  method StripNewlines(s: string) returns (t: string)
    ensures t == TrimNewlines(s)
  {
    t := s;
    while |t| > 0 && t[0] == '\n'
      invariant TrimNewlines(t) == TrimNewlines(s)
    {
      t := t[1..];
    }
    while |t| > 0 && t[|t| - 1] == '\n'
      invariant TrimNewlines(t) == TrimNewlines(s)
      invariant |t| > 0 ==> t[0] != '\n'
    {
      t := t[..|t| - 1];
    }
  }

  /** Existence half of the decomposition: the input is some newlines, the trimmed
      value, then some newlines. Interior characters, '\r' and spaces included, are
      kept as they are. */
  lemma {:induction false} TrimSplits(s: string) returns (a: nat, b: nat)
    ensures s == Repeat(a) + TrimNewlines(s) + Repeat(b)
    decreases |s|
  {
    if |s| > 0 && s[0] == '\n' {
      var a', b' := TrimSplits(s[1..]);
      a, b := a' + 1, b';
      assert Repeat(a) == ['\n'] + Repeat(a') by { RepeatCons(a'); }
      assert s == [s[0]] + s[1..];
    } else if |s| > 0 && s[|s| - 1] == '\n' {
      var a', b' := TrimSplits(s[..|s| - 1]);
      a, b := a', b' + 1;
      assert s == s[..|s| - 1] + [s[|s| - 1]];
    } else {
      a, b := 0, 0;
      assert s == Repeat(0) + s + Repeat(0);
    }
  }

  /** Prepending one newline is the same as appending one. */
  lemma {:induction false} RepeatCons(k: nat)
    ensures Repeat(k + 1) == ['\n'] + Repeat(k)
  {
    if k > 0 {
      RepeatCons(k - 1);
    }
  }

  /** Trailing newlines after a value with no edge newline are all dropped. */
  lemma {:induction false} TrimTrailing(t: string, b: nat)
    requires NoEdgeNewline(t)
    ensures TrimNewlines(t + Repeat(b)) == t
    decreases b
  {
    var s := t + Repeat(b);
    if b == 0 {
      assert s == t;
    } else if |t| > 0 {
      assert s[0] == t[0] && s[|s| - 1] == '\n';
      assert s[..|s| - 1] == t + Repeat(b - 1);
      TrimTrailing(t, b - 1);
    } else {
      RepeatCons(b - 1);
      assert s[0] == '\n';
      assert s[1..] == t + Repeat(b - 1);
      TrimTrailing(t, b - 1);
    }
  }

  /** Uniqueness half of the decomposition: whatever the newline runs around a value
      with no edge newline, trimming gives back exactly that value. */
  lemma {:induction false} TrimUnique(a: nat, t: string, b: nat)
    requires NoEdgeNewline(t)
    ensures TrimNewlines(Repeat(a) + t + Repeat(b)) == t
    decreases a
  {
    var s := Repeat(a) + t + Repeat(b);
    if a == 0 {
      assert s == t + Repeat(b);
      TrimTrailing(t, b);
    } else {
      RepeatCons(a - 1);
      assert s[0] == '\n';
      assert s[1..] == Repeat(a - 1) + t + Repeat(b);
      TrimUnique(a - 1, t, b);
    }
  }

  /** Trimming twice is trimming once; so re-trimming a key on every inner iteration,
      as the pair loops do, changes nothing after the first time. */
  lemma TrimIdempotent(s: string)
    ensures TrimNewlines(TrimNewlines(s)) == TrimNewlines(s)
  {
    var t := TrimNewlines(s);
    TrimUnique(0, t, 0);
    assert Repeat(0) + t + Repeat(0) == t;
  }
}
