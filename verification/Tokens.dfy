/** Delimiter-free runs of a string, and strtok of Include/kstring.c as a step on memory. */
module Tokens {
  import opened Machine

  function Skip(s: seq<byte>, delims: seq<byte>, i: nat): (j: nat)
    requires i <= |s|
    ensures i <= j <= |s| && (j < |s| ==> s[j] !in delims)
    ensures forall k | i <= k < j :: s[k] in delims
    decreases |s| - i
  {
    if i < |s| && s[i] in delims then Skip(s, delims, i + 1) else i
  }

  function RunEnd(s: seq<byte>, delims: seq<byte>, i: nat): (j: nat)
    requires i <= |s|
    ensures i <= j <= |s| && (j < |s| ==> s[j] in delims)
    ensures forall k | i <= k < j :: s[k] !in delims
    decreases |s| - i
  {
    if i < |s| && s[i] !in delims then RunEnd(s, delims, i + 1) else i
  }

  /** The delimiter-free runs of s from i on, as half-open intervals. */
  function Runs(s: seq<byte>, delims: seq<byte>, i: nat := 0): seq<(nat, nat)>
    requires i <= |s|
    decreases |s| - i
  {
    var b := Skip(s, delims, i);
    if b == |s| then [] else [(b, RunEnd(s, delims, b))] + Runs(s, delims, RunEnd(s, delims, b))
  }

  lemma RunsUnfold(s: seq<byte>, delims: seq<byte>, i: nat)
    requires i <= |s|
    ensures var rs := Runs(s, delims, i);
            var b := Skip(s, delims, i);
      if b == |s| then rs == []
      else rs != [] && rs[0] == (b, RunEnd(s, delims, b)) && rs[1..] == Runs(s, delims, RunEnd(s, delims, b))
  {
  }

  lemma RunEndAdvances(s: seq<byte>, delims: seq<byte>, b: nat)
    requires b < |s| && s[b] !in delims
    ensures b < RunEnd(s, delims, b)
  {
  }

  ghost predicate MaximalRun(s: seq<byte>, delims: seq<byte>, i: nat, r: (nat, nat)) {
    && i <= r.0 < r.1 <= |s|
    && (forall k | r.0 <= k < r.1 :: s[k] !in delims)
    && (r.1 < |s| ==> s[r.1] in delims)
    && (i < r.0 ==> s[r.0 - 1] in delims)
  }

  /** Runs lists maximal delimiter-free runs, in order. */
  lemma {:induction false} RunsAreMaximal(s: seq<byte>, delims: seq<byte>, i: nat)
    requires i <= |s|
    ensures var rs := Runs(s, delims, i);
      && (forall k | 0 <= k < |rs| :: MaximalRun(s, delims, i, rs[k]))
      && forall j, k | 0 <= j < k < |rs| :: rs[j].1 < rs[k].0
    decreases |s| - i
  {
    hide Runs, Skip, RunEnd;
    var rs, b := Runs(s, delims, i), Skip(s, delims, i);
    RunsUnfold(s, delims, i);
    if b < |s| {
      var e := RunEnd(s, delims, b);
      var rest := Runs(s, delims, e);
      RunEndAdvances(s, delims, b);
      RunsAreMaximal(s, delims, e);
      assert rs == [(b, e)] + rest;
      forall k | 0 <= k < |rs| ensures MaximalRun(s, delims, i, rs[k]) && (k > 0 ==> e < rs[k].0) {
        if k > 0 {
          assert MaximalRun(s, delims, e, rest[k - 1]);
        }
      }
    }
  }

  /** Every character that is no delimiter lies in some run. */
  lemma {:induction false} RunsMissNothing(s: seq<byte>, delims: seq<byte>, i: nat, x: nat) returns (k: nat)
    requires i <= x < |s| && s[x] !in delims
    ensures k < |Runs(s, delims, i)| && Runs(s, delims, i)[k].0 <= x < Runs(s, delims, i)[k].1
    decreases |s| - i
  {
    hide Runs, Skip, RunEnd;
    RunsUnfold(s, delims, i);
    var b := Skip(s, delims, i);
    var e := RunEnd(s, delims, b);
    RunEndAdvances(s, delims, b);
    if x < e {
      k := 0;
    } else {
      k := RunsMissNothing(s, delims, e, x);
      assert Runs(s, delims, i)[1..][k] == Runs(s, delims, i)[k + 1];
      k := k + 1;
    }
  }

  /** Starting on a delimiter makes no difference to the runs that follow. */
  lemma RunsAfterDelimiter(s: seq<byte>, delims: seq<byte>, e: nat)
    requires e < |s| && s[e] in delims
    ensures Runs(s, delims, e) == Runs(s, delims, e + 1)
  {
  }

  // ----- strtok as a step on memory

  /** The string at index p: the bytes up to the terminator at index end. */
  datatype Memory = Memory(bytes: seq<byte>, saved: Option<nat>)

  /** What one call strtok(NULL, delims) does to a string that ends at index end. */
  function Strtok(m: Memory, end: nat, delims: seq<byte>): (Memory, Option<nat>)
    requires end < |m.bytes| && (m.saved.Some? ==> m.saved.value <= end)
  {
    if m.saved.None? then (m, None)
    else
      var s := m.bytes[..end];
      var b := Skip(s, delims, m.saved.value);
      if b == end then (m, None)
      else
        var e := RunEnd(s, delims, b);
        if e < end then (Memory(m.bytes[e := 0], Some(e + 1)), Some(b)) else (m.(saved := None), Some(b))
  }

  /** The memory before the k-th of a series of calls with one delimiter set. */
  function Before(m: Memory, end: nat, delims: seq<byte>, k: nat): (r: Memory)
    requires end < |m.bytes| && (m.saved.Some? ==> m.saved.value <= end)
    ensures |r.bytes| == |m.bytes| && (r.saved.Some? ==> r.saved.value <= end)
  {
    if k == 0 then m else Strtok(Before(m, end, delims, k - 1), end, delims).0
  }

  /** The original string with the delimiter behind each of the first k tokens overwritten. */
  function Cut(s: seq<byte>, rs: seq<(nat, nat)>, k: nat): (r: seq<byte>)
    requires k <= |rs|
    ensures |r| == |s|
  {
    if k == 0 then s
    else
      var before := Cut(s, rs, k - 1);
      if rs[k - 1].1 < |s| then before[rs[k - 1].1 := 0] else before
  }

  /** Where the cursor stands after k tokens. */
  function Cursor(s: seq<byte>, rs: seq<(nat, nat)>, k: nat): Option<nat>
    requires k <= |rs|
  {
    if k == 0 then Some(0) else if rs[k - 1].1 < |s| then Some(rs[k - 1].1 + 1) else None
  }

  lemma {:induction false} CutKeeps(s: seq<byte>, rs: seq<(nat, nat)>, k: nat, from: nat)
    requires k <= |rs| && forall j | 0 <= j < k :: rs[j].1 < from || rs[j].1 >= |s|
    ensures from <= |s| ==> Cut(s, rs, k)[from..] == s[from..]
  {
    if k > 0 {
      CutKeeps(s, rs, k - 1, from);
    }
  }

  /** The runs that remain after the k-th token are the runs of the rest of the string. */
  lemma {:induction false} RunsSuffix(s: seq<byte>, delims: seq<byte>, k: nat)
    requires k <= |Runs(s, delims)|
    ensures var rs := Runs(s, delims);
            var c := Cursor(s, rs, k);
      && (c.Some? ==> c.value <= |s| && Runs(s, delims, c.value) == rs[k..])
      && (c.None? ==> k == |rs|)
  {
    hide Runs;
    var rs := Runs(s, delims);
    if k > 0 {
      RunsSuffix(s, delims, k - 1);
      var c, e := Cursor(s, rs, k - 1).value, rs[k - 1].1;
      RunsUnfold(s, delims, c);
      assert rs[k - 1..][0] == rs[k - 1] && rs[k - 1..][1..] == rs[k..];
      if e < |s| {
        RunsAfterDelimiter(s, delims, e);
      } else {
        RunsUnfold(s, delims, e);
      }
    } else {
      assert rs[0..] == rs;
    }
  }

  lemma {:induction false} SkipSameSuffix(s: seq<byte>, t: seq<byte>, delims: seq<byte>, c: nat, i: nat)
    requires c <= i <= |s| == |t| && s[c..] == t[c..]
    ensures Skip(s, delims, i) == Skip(t, delims, i) && RunEnd(s, delims, i) == RunEnd(t, delims, i)
    decreases |s| - i
  {
    if i < |s| {
      assert s[c..][i - c] == t[c..][i - c];
      SkipSameSuffix(s, t, delims, c, i + 1);
    }
  }

  /** Delimiters overwritten so far lie behind the cursor and inside no run. */
  lemma CutBehindCursor(s: seq<byte>, delims: seq<byte>, k: nat)
    requires k < |Runs(s, delims)|
    ensures var rs := Runs(s, delims);
            var c := Cursor(s, rs, k);
      c.Some? && c.value <= |s| && Cut(s, rs, k)[c.value..] == s[c.value..]
  {
    hide Runs;
    var rs := Runs(s, delims);
    RunsSuffix(s, delims, k);
    RunsAreMaximal(s, delims, 0);
    var c := Cursor(s, rs, k).value;
    forall j | 0 <= j < k ensures rs[j].1 < c || rs[j].1 >= |s| {
      if j < k - 1 { assert rs[j].1 < rs[k - 1].0 && MaximalRun(s, delims, 0, rs[k - 1]); }
    }
    CutKeeps(s, rs, k, c);
  }

  /** One call in the middle of the series. */
  lemma StrtokTakesRun(m: Memory, s: seq<byte>, end: nat, delims: seq<byte>, k: nat)
    requires end == |s| < |m.bytes| && k < |Runs(s, delims)|
    requires m.bytes[..end] == Cut(s, Runs(s, delims), k) && m.saved == Cursor(s, Runs(s, delims), k)
    ensures m.saved.Some? && m.saved.value <= end
    ensures var rs := Runs(s, delims);
            var (q, r) := Strtok(m, end, delims);
      && r == Some(rs[k].0) && q.saved == Cursor(s, rs, k + 1)
      && |q.bytes| == |m.bytes| && q.bytes[..end] == Cut(s, rs, k + 1) && q.bytes[end..] == m.bytes[end..]
  {
    hide Runs, Skip, RunEnd;
    var rs := Runs(s, delims);
    RunsSuffix(s, delims, k);
    CutBehindCursor(s, delims, k);
    var c, t := m.saved.value, m.bytes[..end];
    RunsUnfold(s, delims, c);
    assert rs[k..][0] == rs[k];
    SkipSameSuffix(t, s, delims, c, c);
    SkipSameSuffix(t, s, delims, c, rs[k].0);
  }

  lemma {:induction false} SeriesState(bytes: seq<byte>, end: nat, delims: seq<byte>, k: nat)
    requires end < |bytes| && k <= |Runs(bytes[..end], delims)|
    ensures var s := bytes[..end];
            var m := Before(Memory(bytes, Some(0)), end, delims, k);
      m.bytes[..end] == Cut(s, Runs(s, delims), k) && m.bytes[end..] == bytes[end..] && m.saved == Cursor(s, Runs(s, delims), k)
  {
    hide Runs, Strtok;
    if k > 0 {
      SeriesState(bytes, end, delims, k - 1);
      StrtokTakesRun(Before(Memory(bytes, Some(0)), end, delims, k - 1), bytes[..end], end, delims, k - 1);
    }
  }

  /** After the last token nothing changes any more. */
  lemma {:induction false} SeriesEnds(bytes: seq<byte>, end: nat, delims: seq<byte>, k: nat)
    requires end < |bytes| && k >= |Runs(bytes[..end], delims)|
    ensures var n := |Runs(bytes[..end], delims)|;
            var m := Memory(bytes, Some(0));
      Before(m, end, delims, k) == Before(m, end, delims, n) && Strtok(Before(m, end, delims, k), end, delims).1.None?
      && Strtok(Before(m, end, delims, k), end, delims).0 == Before(m, end, delims, n)
  {
    hide Runs, Skip, RunEnd, Strtok;
    if k > |Runs(bytes[..end], delims)| {
      SeriesEnds(bytes, end, delims, k - 1);
    } else {
      NoTokenLeft(bytes, end, delims);
    }
  }

  lemma NoTokenLeft(bytes: seq<byte>, end: nat, delims: seq<byte>)
    requires end < |bytes|
    ensures var q := Before(Memory(bytes, Some(0)), end, delims, |Runs(bytes[..end], delims)|);
      Strtok(q, end, delims) == (q, None)
  {
    hide Runs, Skip, RunEnd, Before, Cut;
    var s := bytes[..end];
    var n, m := |Runs(s, delims)|, Memory(bytes, Some(0));
    SeriesState(bytes, end, delims, n);
    RunsSuffix(s, delims, n);
    RunsAreMaximal(s, delims, 0);
    var q := Before(m, end, delims, n);
    if q.saved.Some? {
      var c := q.saved.value;
      LastCursor(s, delims);
      RunsUnfold(s, delims, c);
      SkipSameSuffix(q.bytes[..end], s, delims, c, c);
    }
  }

  lemma LastCursor(s: seq<byte>, delims: seq<byte>)
    ensures var rs := Runs(s, delims);
            var c := Cursor(s, rs, |rs|);
      c.Some? ==> c.value <= |s| && Cut(s, rs, |rs|)[c.value..] == s[c.value..]
  {
    hide Runs, Skip, RunEnd;
    var rs := Runs(s, delims);
    RunsSuffix(s, delims, |rs|);
    RunsAreMaximal(s, delims, 0);
    var c := Cursor(s, rs, |rs|);
    if c.Some? && |rs| > 0 {
      forall j | 0 <= j < |rs| ensures rs[j].1 < c.value || rs[j].1 >= |s| {
        if j < |rs| - 1 { assert rs[j].1 < rs[|rs| - 1].0 && MaximalRun(s, delims, 0, rs[|rs| - 1]); }
      }
      CutKeeps(s, rs, |rs|, c.value);
    }
  }

  /** Right after the k-th call its run is intact and terminated. */
  lemma CutHoldsRun(s: seq<byte>, delims: seq<byte>, k: nat)
    requires k < |Runs(s, delims)|
    ensures var r := Runs(s, delims)[k];
            var t := Cut(s, Runs(s, delims), k + 1);
      && r.0 <= r.1 <= |s| && t[r.0..r.1] == s[r.0..r.1] && (r.1 < |s| ==> t[r.1] == 0)
  {
    hide Runs, Skip, RunEnd;
    var rs := Runs(s, delims);
    RunsAreMaximal(s, delims, 0);
    assert MaximalRun(s, delims, 0, rs[k]);
    CutBehindCursor(s, delims, k);
    RunsSuffix(s, delims, k);
    var c := Cursor(s, rs, k).value;
    RunsUnfold(s, delims, c);
    assert rs[k..][0] == rs[k];
    RunSurvives(s, Cut(s, rs, k), c, rs[k]);
    assert Cut(s, rs, k + 1)[rs[k].0..rs[k].1] == Cut(s, rs, k)[rs[k].0..rs[k].1];
  }

  /** Main result: the k-th call returns the k-th maximal run, terminated in place; further calls return NULL forever. */
  lemma StrtokReturnsRuns(bytes: seq<byte>, end: nat, delims: seq<byte>, k: nat)
    requires end < |bytes| && bytes[end] == 0 && NoNul(bytes[..end])
    ensures var s := bytes[..end];
            var rs := Runs(s, delims);
            var m := Before(Memory(bytes, Some(0)), end, delims, k);
            var (q, r) := Strtok(m, end, delims);
      && r == (if k < |rs| then Some(rs[k].0) else None)
      && q.bytes == Cut(s, rs, if k < |rs| then k + 1 else |rs|) + bytes[end..]
      && (k < |rs| ==> rs[k].0 <= rs[k].1 <= end && q.bytes[rs[k].1] == 0 && q.bytes[rs[k].0..rs[k].1] == s[rs[k].0..rs[k].1])
  {
    hide Runs, Strtok, Cut;
    var s, m := bytes[..end], Memory(bytes, Some(0));
    var rs := Runs(s, delims);
    if k < |rs| {
      SeriesState(bytes, end, delims, k);
      StrtokTakesRun(Before(m, end, delims, k), s, end, delims, k);
      CutHoldsRun(s, delims, k);
      var q := Strtok(Before(m, end, delims, k), end, delims).0;
      Rejoin(q.bytes, bytes, end, rs[k], Cut(s, rs, k + 1));
    } else {
      SeriesEnds(bytes, end, delims, k);
      SeriesState(bytes, end, delims, |rs|);
      var q := Before(m, end, delims, |rs|);
      assert q.bytes == q.bytes[..end] + q.bytes[end..];
    }
  }

  lemma Rejoin(q: seq<byte>, bytes: seq<byte>, end: nat, r: (nat, nat), t: seq<byte>)
    requires end < |q| == |bytes| && q[..end] == t && q[end..] == bytes[end..] && r.0 <= r.1 <= end
    ensures q == t + bytes[end..] && q[r.0..r.1] == t[r.0..r.1] && q[r.1] == if r.1 < end then t[r.1] else bytes[end]
  {
    assert q == q[..end] + q[end..];
    assert q[r.0..r.1] == q[..end][r.0..r.1];
  }

  lemma RunSurvives(s: seq<byte>, t: seq<byte>, c: nat, r: (nat, nat))
    requires c <= r.0 <= r.1 <= |s| == |t| && t[c..] == s[c..]
    ensures t[r.0..r.1] == s[r.0..r.1]
  {
    assert t[c..][r.0 - c..r.1 - c] == t[r.0..r.1];
    assert s[c..][r.0 - c..r.1 - c] == s[r.0..r.1];
  }
}
