/**
 * Candidate extraction: the two key patterns
 *
 *     (^|[^A-Za-z0-9/+=])[A-Za-z0-9/+=]{n}([^A-Za-z0-9/+=]|$)     n = 20 or 40
 *
 * applied with Go's `FindAllString(text, -1)`: leftmost-first, non-overlapping
 * matches, the next search starting where the previous match ended. `^` and `$`
 * match only at the start and end of the whole text, and the boundary
 * characters are part of the match.
 */
module Extraction {

  /** Width of an access key identifier candidate. */
  const IdentifierLength: nat := 20
  /** Width of a secret key candidate. */
  const SecretLength: nat := 40

  /** The key alphabet `[A-Za-z0-9/+=]`. */
  predicate IsKeyChar(c: char)
  {
    ('A' <= c <= 'Z') || ('a' <= c <= 'z') || ('0' <= c <= '9') || c == '/' || c == '+' || c == '='
  }

  /** Every character of `s[lo..hi]` is in the key alphabet. */
  predicate KeyRun(s: string, lo: nat, hi: nat)
    requires lo <= hi <= |s|
  {
    forall k :: lo <= k < hi ==> IsKeyChar(s[k])
  }

  /** Every character of `t` is in the key alphabet. */
  predicate IsKeyString(t: string)
  {
    forall k :: 0 <= k < |t| ==> IsKeyChar(t[k])
  }

  /** `s[a..b]` is a non-empty run of key characters that cannot be extended either way. */
  predicate MaximalRun(s: string, a: nat, b: nat)
  {
    a < b <= |s| && KeyRun(s, a, b) &&
    (a == 0 || !IsKeyChar(s[a - 1])) &&
    (b == |s| || !IsKeyChar(s[b]))
  }

  /** `[A]{n}([^A]|$)` matches with its key part starting at `c`. */
  predicate BodyAt(s: string, n: nat, c: nat)
  {
    c + n <= |s| && KeyRun(s, c, c + n) && (c + n == |s| || !IsKeyChar(s[c + n]))
  }

  /** The whole pattern matches starting at `i`: either `^` at the start of the text,
      or one non-key character at `i`, followed by the body. */
  predicate MatchesAt(s: string, n: nat, i: nat)
  {
    (i == 0 && BodyAt(s, n, 0)) ||
    (i < |s| && !IsKeyChar(s[i]) && BodyAt(s, n, i + 1))
  }

  /** Where the n key characters of the match at `i` start. The `^` alternative is
      tried first, as leftmost-first semantics prescribe. */
  function BodyStart(s: string, n: nat, i: nat): (c: nat)
    requires MatchesAt(s, n, i)
    ensures c == i || c == i + 1
    ensures BodyAt(s, n, c)
  {
    if i == 0 && BodyAt(s, n, 0) then 0 else i + 1
  }

  /** End (exclusive) of the match at `i`: the trailing group consumes one
      non-key character when there is one, and is `$` otherwise. */
  function MatchEnd(s: string, n: nat, i: nat): (e: nat)
    requires 0 < n && MatchesAt(s, n, i)
    ensures i < e <= |s|
  {
    var c := BodyStart(s, n, i);
    if c + n < |s| then c + n + 1 else c + n
  }

  /** A match as the pair of indices Go's `FindAllStringIndex` would report. */
  datatype Span = Span(start: nat, end: nat)

  /** The regexp engine's loop from search position `pos`: the leftmost match at or
      after `pos`, then the search resumes at its end. */
  function ScanFrom(s: string, n: nat, pos: nat): (r: seq<Span>)
    requires 0 < n && pos <= |s|
    ensures forall k :: 0 <= k < |r| ==>
      pos <= r[k].start && MatchesAt(s, n, r[k].start) && r[k].end == MatchEnd(s, n, r[k].start)
    ensures forall k :: 0 < k < |r| ==> r[k - 1].end <= r[k].start
    decreases |s| - pos
  {
    if pos == |s| then []
    else if MatchesAt(s, n, pos) then
      [Span(pos, MatchEnd(s, n, pos))] + ScanFrom(s, n, MatchEnd(s, n, pos))
    else ScanFrom(s, n, pos + 1)
  }

  /** All matches of the width-`n` pattern in `s`, left to right. */
  function FindAllIndex(s: string, n: nat): seq<Span>
    requires 0 < n
  {
    ScanFrom(s, n, 0)
  }

  /** `FindAllString(s, -1)`: the matched substrings, boundary characters included. */
  function FindAllString(s: string, n: nat): (r: seq<string>)
    requires 0 < n
    ensures |r| == |FindAllIndex(s, n)|
  {
    var spans := FindAllIndex(s, n);
    seq(|spans|, k requires 0 <= k < |spans| => s[spans[k].start..spans[k].end])
  }

  /** Position `i` lies inside one of the spans. */
  predicate Covered(r: seq<Span>, i: nat)
  {
    exists k :: 0 <= k < |r| && r[k].start <= i < r[k].end
  }

  /** Leftmost-first completeness: a position where the pattern could match is
      either the start of a reported match or swallowed by an earlier one. Together
      with the ordering in `ScanFrom`'s contract this determines the matches. */
  lemma {:induction false} ScanFromComplete(s: string, n: nat, pos: nat, i: nat)
    requires 0 < n && pos <= i < |s| && MatchesAt(s, n, i)
    ensures Covered(ScanFrom(s, n, pos), i)
    decreases |s| - pos
  {
    var r := ScanFrom(s, n, pos);
    if MatchesAt(s, n, pos) {
      var e := MatchEnd(s, n, pos);
      var rest := ScanFrom(s, n, e);
      assert r == [Span(pos, e)] + rest;
      if i < e {
        assert r[0].start <= i < r[0].end;
      } else {
        ScanFromComplete(s, n, e, i);
        var k :| 0 <= k < |rest| && rest[k].start <= i < rest[k].end;
        assert r[k + 1] == rest[k];
      }
    } else {
      assert pos != i;
      assert r == ScanFrom(s, n, pos + 1);
      ScanFromComplete(s, n, pos + 1, i);
    }
  }

  /** Every match found in the whole text, and every position where the pattern
      could match is covered by a found match. */
  lemma FindAllComplete(s: string, n: nat, i: nat)
    requires 0 < n && i < |s| && MatchesAt(s, n, i)
    ensures Covered(FindAllIndex(s, n), i)
  {
    ScanFromComplete(s, n, 0, i);
  }

  /** The key part of every match is a maximal run of exactly `n` key characters;
      the leading boundary is absent only at the start of the text, the trailing
      one only at its end. */
  lemma MatchShape(s: string, n: nat, i: nat)
    requires 0 < n && MatchesAt(s, n, i)
    ensures var c := BodyStart(s, n, i);
      MaximalRun(s, c, c + n) &&
      (c == i ==> i == 0) &&
      (c == i + 1 ==> !IsKeyChar(s[i])) &&
      (MatchEnd(s, n, i) == c + n ==> c + n == |s|) &&
      (MatchEnd(s, n, i) == c + n + 1 ==> !IsKeyChar(s[c + n]))
  {
  }

  /** Two maximal runs either are the same run or do not overlap. */
  lemma MaximalRunsDisjoint(s: string, a: nat, b: nat, c: nat, d: nat)
    requires MaximalRun(s, a, b) && MaximalRun(s, c, d)
    ensures (a == c && b == d) || b <= c || d <= a
  {
  }

  /** A maximal run of key characters whose length is not `n` shares no character
      with the key part of any match: runs of 19 or 21 characters never yield an
      identifier candidate. */
  lemma OtherLengthRunIgnored(s: string, n: nat, a: nat, b: nat)
    requires 0 < n && MaximalRun(s, a, b) && b - a != n
    ensures forall sp :: sp in FindAllIndex(s, n) ==>
      MatchesAt(s, n, sp.start) &&
      (BodyStart(s, n, sp.start) + n <= a || b <= BodyStart(s, n, sp.start))
  {
    forall sp | sp in FindAllIndex(s, n)
      ensures MatchesAt(s, n, sp.start)
      ensures BodyStart(s, n, sp.start) + n <= a || b <= BodyStart(s, n, sp.start)
    {
      var c := BodyStart(s, n, sp.start);
      MatchShape(s, n, sp.start);
      MaximalRunsDisjoint(s, a, b, c, c + n);
    }
  }

  /** Shape of the k-th candidate string: an optional non-key lead, exactly `n` key
      characters, an optional non-key trail; the lead is missing only when the match
      starts the text and the trail only when it ends the text. */
  lemma CandidateShape(s: string, n: nat, k: nat) returns (lead: nat, trail: nat)
    requires 0 < n && k < |FindAllIndex(s, n)|
    ensures var m := FindAllString(s, n)[k];
      var sp := FindAllIndex(s, n)[k];
      lead <= 1 && trail <= 1 && |m| == lead + n + trail &&
      IsKeyString(m[lead..lead + n]) &&
      (lead == 1 ==> !IsKeyChar(m[0])) && (lead == 0 ==> sp.start == 0) &&
      (trail == 1 ==> !IsKeyChar(m[|m| - 1])) && (trail == 0 ==> sp.end == |s|)
  {
    var sp := FindAllIndex(s, n)[k];
    var m := FindAllString(s, n)[k];
    assert MatchesAt(s, n, sp.start) && sp.end == MatchEnd(s, n, sp.start);
    assert m == s[sp.start..sp.end];
    var c := BodyStart(s, n, sp.start);
    MatchShape(s, n, sp.start);
    lead := c - sp.start;
    trail := sp.end - (c + n);
    assert sp.start <= c && c + n <= sp.end;
    forall i | lead <= i < lead + n ensures m[i] == s[sp.start + i] { }
    assert m[lead..lead + n] == s[c..c + n];
  }

  /** From a position after the start, key characters can never begin a match, so the
      scan passes over a run of them. */
  lemma {:induction false} SkipKeyRun(s: string, n: nat, pos: nat, q: nat)
    requires 0 < n && 0 < pos <= q <= |s| && KeyRun(s, pos, q)
    ensures ScanFrom(s, n, pos) == ScanFrom(s, n, q)
    decreases q - pos
  {
    if pos < q {
      assert !MatchesAt(s, n, pos);
      SkipKeyRun(s, n, pos + 1, q);
    }
  }

  /** Two width-`n` tokens separated by a single non-key character: the first match
      consumes the separator as its trailing boundary, so the second token, which
      would need that same character as its leading boundary, is not found. */
  lemma SharedBoundaryHidesSecond(u: string, c: char, v: string, n: nat)
    requires 0 < n && |u| == n && |v| == n && IsKeyString(u) && IsKeyString(v) && !IsKeyChar(c)
    ensures FindAllString(u + [c] + v, n) == [u + [c]]
  {
    var s := u + [c] + v;
    assert BodyAt(s, n, 0) by {
      assert s[n] == c;
      forall k | 0 <= k < n ensures IsKeyChar(s[k]) { assert s[k] == u[k]; }
    }
    assert MatchesAt(s, n, 0);
    assert MatchEnd(s, n, 0) == n + 1;
    SkipKeyRun(s, n, n + 1, |s|) by {
      forall k | n + 1 <= k < |s| ensures IsKeyChar(s[k]) { assert s[k] == v[k - n - 1]; }
    }
    assert FindAllIndex(s, n) == [Span(0, n + 1)];
    assert s[0..n + 1] == u + [c];
  }

  /** With two separating characters both tokens are found, each carrying one of them. */
  lemma TwoSeparatorsFindBoth(u: string, c: char, d: char, v: string, n: nat)
    requires 0 < n && |u| == n && |v| == n && IsKeyString(u) && IsKeyString(v)
    requires !IsKeyChar(c) && !IsKeyChar(d)
    ensures FindAllString(u + [c] + [d] + v, n) == [u + [c], [d] + v]
  {
    var s := u + [c] + [d] + v;
    assert BodyAt(s, n, 0) by {
      assert s[n] == c;
      forall k | 0 <= k < n ensures IsKeyChar(s[k]) { assert s[k] == u[k]; }
    }
    assert MatchEnd(s, n, 0) == n + 1;
    assert BodyAt(s, n, n + 2) by {
      forall k | n + 2 <= k < |s| ensures IsKeyChar(s[k]) { assert s[k] == v[k - n - 2]; }
    }
    assert s[n + 1] == d;
    assert MatchesAt(s, n, n + 1);
    assert BodyStart(s, n, n + 1) == n + 2;
    assert MatchEnd(s, n, n + 1) == |s|;
    assert ScanFrom(s, n, n + 1) == [Span(n + 1, |s|)] + ScanFrom(s, n, |s|);
    assert FindAllIndex(s, n) == [Span(0, n + 1), Span(n + 1, |s|)];
    assert s[0..n + 1] == u + [c];
    assert s[n + 1..|s|] == [d] + v;
  }

  /** A token flanked by non-key characters is returned together with both flanks. */
  lemma FlankedTokenKeepsFlanks(c: char, u: string, d: char, n: nat)
    requires 0 < n && |u| == n && IsKeyString(u) && !IsKeyChar(c) && !IsKeyChar(d)
    ensures FindAllString([c] + u + [d], n) == [[c] + u + [d]]
  {
    var s := [c] + u + [d];
    assert !BodyAt(s, n, 0);
    assert BodyAt(s, n, 1) by {
      assert s[n + 1] == d;
      forall k | 1 <= k < n + 1 ensures IsKeyChar(s[k]) { assert s[k] == u[k - 1]; }
    }
    assert MatchesAt(s, n, 0);
    assert MatchEnd(s, n, 0) == |s|;
    assert FindAllIndex(s, n) == [Span(0, |s|)] + ScanFrom(s, n, |s|);
    assert s[0..|s|] == s;
  }

  /** An identifier and a secret on consecutive lines: the identifier pattern finds the
      identifier with the newline as its trailing boundary, and the secret pattern
      finds the secret with the same newline as its leading boundary (the two scans
      are independent, so the shared character is no obstacle). */
  lemma IdentifierThenSecret(id: string, sec: string)
    requires |id| == IdentifierLength && |sec| == SecretLength && IsKeyString(id) && IsKeyString(sec)
    ensures FindAllString(id + "\n" + sec, IdentifierLength) == [id + "\n"]
    ensures FindAllString(id + "\n" + sec, SecretLength) == ["\n" + sec]
  {
    var s := id + "\n" + sec;
    var m, n := IdentifierLength, SecretLength;
    assert s[m] == '\n';
    assert KeyRun(s, 0, m) by {
      forall k | 0 <= k < m ensures IsKeyChar(s[k]) { assert s[k] == id[k]; }
    }
    assert KeyRun(s, m + 1, |s|) by {
      forall k | m + 1 <= k < |s| ensures IsKeyChar(s[k]) { assert s[k] == sec[k - m - 1]; }
    }
    // the identifier scan
    assert MatchesAt(s, m, 0);
    assert MatchEnd(s, m, 0) == m + 1;
    SkipKeyRun(s, m, m + 1, |s|);
    assert FindAllIndex(s, m) == [Span(0, m + 1)];
    assert s[0..m + 1] == id + "\n";
    // the secret scan
    assert !MatchesAt(s, n, 0) by {
      assert !KeyRun(s, 0, n) by { assert !IsKeyChar(s[m]); }
    }
    SkipKeyRun(s, n, 1, m);
    assert MatchesAt(s, n, m) && BodyStart(s, n, m) == m + 1;
    assert MatchEnd(s, n, m) == |s|;
    assert FindAllIndex(s, n) == [Span(0 + m, |s|)] by {
      assert ScanFrom(s, n, 0) == ScanFrom(s, n, 1);
      assert ScanFrom(s, n, m) == [Span(m, |s|)] + ScanFrom(s, n, |s|);
    }
    assert s[m..|s|] == "\n" + sec;
  }
}
