/** Order-preserving filtering of sequences, the model of `Array.prototype.filter`. */
module Seqs {

  /** The elements of `s` that satisfy `keep`, in their original order. */
  function Filter<T>(s: seq<T>, keep: T -> bool): (r: seq<T>)
    ensures |r| <= |s|
    ensures forall i :: 0 <= i < |r| ==> r[i] in s && keep(r[i])
  {
    if |s| == 0 then []
    else if keep(s[0]) then [s[0]] + Filter(s[1..], keep)
    else Filter(s[1..], keep)
  }

  /** `r[i]` is read from position `idx[i]` of `s`, and the positions strictly increase. */
  ghost predicate Embeds<T>(r: seq<T>, s: seq<T>, idx: seq<int>) {
    && |idx| == |r|
    && (forall i :: 0 <= i < |idx| ==> 0 <= idx[i] < |s| && r[i] == s[idx[i]])
    && (forall i, j :: 0 <= i < j < |idx| ==> idx[i] < idx[j])
  }

  /**
   * `r` consists of exactly the elements of `s` that satisfy `keep`: each
   * one once, in the order they have in `s`, and nothing else.
   */
  ghost predicate Selects<T>(r: seq<T>, s: seq<T>, keep: T -> bool) {
    exists idx :: Embeds(r, s, idx) && SelectedPositions(s, keep, idx)
  }

  /** The positions listed in `idx` are exactly those where `s` satisfies `keep`. */
  ghost predicate SelectedPositions<T>(s: seq<T>, keep: T -> bool, idx: seq<int>) {
    forall k :: 0 <= k < |s| ==> (keep(s[k]) <==> k in idx)
  }

  /** Every position of `idx`, shifted up by one. */
  function Shift(idx: seq<int>): (r: seq<int>)
    ensures |r| == |idx| && forall i :: 0 <= i < |idx| ==> r[i] == idx[i] + 1
  {
    seq(|idx|, i requires 0 <= i < |idx| => idx[i] + 1)
  }

  /** A position is in the shifted list exactly when its predecessor was in the original. */
  lemma ShiftMembers(idx: seq<int>, k: int)
    requires forall i :: 0 <= i < |idx| ==> 0 <= idx[i]
    ensures k in Shift(idx) <==> k > 0 && k - 1 in idx
  {
    var shifted := Shift(idx);
    if k - 1 in idx {
      var m :| 0 <= m < |idx| && idx[m] == k - 1;
      assert shifted[m] == k;
    }
    if k in shifted {
      var m :| 0 <= m < |shifted| && shifted[m] == k;
      assert idx[m] == k - 1;
    }
  }

  /** Reading `s[1..]` at `idx` is reading `s` at the shifted positions. */
  lemma EmbedsShift<T>(r: seq<T>, s: seq<T>, idx: seq<int>)
    requires |s| > 0 && Embeds(r, s[1..], idx)
    ensures Embeds(r, s, Shift(idx))
  {
    var shifted := Shift(idx);
    forall i | 0 <= i < |idx|
      ensures 0 <= shifted[i] < |s| && r[i] == s[shifted[i]]
    {
      assert r[i] == s[1..][idx[i]];
    }
  }

  /** An embedding that avoids position 0 extends to one with `s[0]` in front. */
  lemma EmbedsCons<T>(r: seq<T>, s: seq<T>, idx: seq<int>)
    requires |s| > 0 && Embeds(r, s, idx)
    requires forall i :: 0 <= i < |idx| ==> 0 < idx[i]
    ensures Embeds([s[0]] + r, s, [0] + idx)
  {
    var r', idx' := [s[0]] + r, [0] + idx;
    forall i | 0 <= i < |idx'|
      ensures 0 <= idx'[i] < |s| && r'[i] == s[idx'[i]]
    {
      if i > 0 {
        assert idx'[i] == idx[i - 1] && r'[i] == r[i - 1];
      }
    }
    forall i, j | 0 <= i < j < |idx'|
      ensures idx'[i] < idx'[j]
    {
      if i > 0 {
        assert idx'[i] == idx[i - 1] && idx'[j] == idx[j - 1];
      } else {
        assert idx'[j] == idx[j - 1];
      }
    }
  }

  /** The survivors of `s[1..]`, read at shifted positions, and `s[0]` in front when kept. */
  lemma FilterEmbedsCons<T>(s: seq<T>, keep: T -> bool, idx: seq<int>)
    requires |s| > 0 && Embeds(Filter(s[1..], keep), s[1..], idx)
    ensures Embeds(Filter(s, keep), s, if keep(s[0]) then [0] + Shift(idx) else Shift(idx))
  {
    var t := Filter(s[1..], keep);
    EmbedsShift(t, s, idx);
    if keep(s[0]) {
      assert Filter(s, keep) == [s[0]] + t;
      EmbedsCons(t, s, Shift(idx));
    } else {
      assert Filter(s, keep) == t;
    }
  }

  /** `filter` selects exactly the elements that satisfy the predicate, in order, each once. */
  lemma {:induction false} FilterSelects<T>(s: seq<T>, keep: T -> bool)
    ensures Selects(Filter(s, keep), s, keep)
  {
    if |s| == 0 {
      assert Embeds(Filter(s, keep), s, []) && SelectedPositions(s, keep, []);
    } else {
      var rest := s[1..];
      FilterSelects(rest, keep);
      var idx :| Embeds(Filter(rest, keep), rest, idx) && SelectedPositions(rest, keep, idx);
      var idx' := if keep(s[0]) then [0] + Shift(idx) else Shift(idx);
      FilterEmbedsCons(s, keep, idx);
      forall k | 0 <= k < |s|
        ensures keep(s[k]) <==> k in idx'
      {
        ShiftMembers(idx, k);
        if k > 0 {
          assert s[k] == rest[k - 1];
        }
      }
      assert SelectedPositions(s, keep, idx');
    }
  }

  /** Two strictly increasing sequences with the same elements are equal. */
  lemma {:induction false} IncreasingSameElements(a: seq<int>, b: seq<int>)
    requires forall i, j :: 0 <= i < j < |a| ==> a[i] < a[j]
    requires forall i, j :: 0 <= i < j < |b| ==> b[i] < b[j]
    requires forall x :: x in a <==> x in b
    ensures a == b
  {
    // The first element of either sequence, when there is one, is in the other.
    if |a| > 0 {
      assert a[0] in a;
    }
    if |b| > 0 {
      assert b[0] in b;
    }
    if |a| > 0 && |b| > 0 {
      assert a[0] == b[0] by {
        var i :| 0 <= i < |b| && b[i] == a[0];
        var j :| 0 <= j < |a| && a[j] == b[0];
        assert b[0] <= a[0] && a[0] <= b[0];
      }
      forall x
        ensures x in a[1..] <==> x in b[1..]
      {
        if x in a[1..] {
          var i :| 1 <= i < |a| && a[i] == x;
          assert x in a;
          var j :| 0 <= j < |b| && b[j] == x;
          assert j != 0;
        }
        if x in b[1..] {
          var j :| 1 <= j < |b| && b[j] == x;
          assert x in b;
          var i :| 0 <= i < |a| && a[i] == x;
          assert i != 0;
        }
      }
      IncreasingSameElements(a[1..], b[1..]);
      assert a == [a[0]] + a[1..] && b == [b[0]] + b[1..];
    }
  }

  /** A position listed by one selecting index list is listed by every other. */
  lemma SelectedPositionShared<T>(s: seq<T>, keep: T -> bool, idx1: seq<int>, idx2: seq<int>, i: nat)
    requires i < |idx1| && 0 <= idx1[i] < |s|
    requires SelectedPositions(s, keep, idx1) && SelectedPositions(s, keep, idx2)
    ensures idx1[i] in idx2
  {
    var x := idx1[i];
    assert x in idx1;
    assert keep(s[x]);
  }

  /** At most one sequence selects the elements of `s` that satisfy `keep`. */
  lemma SelectsUnique<T>(r1: seq<T>, r2: seq<T>, s: seq<T>, keep: T -> bool)
    requires Selects(r1, s, keep) && Selects(r2, s, keep)
    ensures r1 == r2
  {
    var idx1 :| Embeds(r1, s, idx1) && SelectedPositions(s, keep, idx1);
    var idx2 :| Embeds(r2, s, idx2) && SelectedPositions(s, keep, idx2);
    forall x
      ensures x in idx1 ==> x in idx2
    {
      if x in idx1 {
        var i :| 0 <= i < |idx1| && idx1[i] == x;
        SelectedPositionShared(s, keep, idx1, idx2, i);
      }
    }
    forall x
      ensures x in idx2 ==> x in idx1
    {
      if x in idx2 {
        var i :| 0 <= i < |idx2| && idx2[i] == x;
        SelectedPositionShared(s, keep, idx2, idx1, i);
      }
    }
    IncreasingSameElements(idx1, idx2);
    assert forall i :: 0 <= i < |r1| ==> r1[i] == s[idx1[i]] == r2[i];
  }

  /**
   * A relation that holds between every ordered pair of `s` holds between
   * every ordered pair of a selection from `s`, since the selection reads
   * `s` at increasing positions.
   */
  lemma SelectsKeepPairs<T>(r: seq<T>, s: seq<T>, keep: T -> bool, rel: (T, T) -> bool)
    requires Selects(r, s, keep)
    requires forall i, j :: 0 <= i < j < |s| ==> rel(s[i], s[j])
    ensures forall i, j :: 0 <= i < j < |r| ==> rel(r[i], r[j])
  {
    var idx :| Embeds(r, s, idx) && SelectedPositions(s, keep, idx);
    forall i, j | 0 <= i < j < |r|
      ensures rel(r[i], r[j])
    {
      assert idx[i] < idx[j];
      assert rel(s[idx[i]], s[idx[j]]);
    }
  }

  /** A property of every element of `s` holds of every element of `r` drawn from `s`. */
  lemma MembersKeep<T>(r: seq<T>, s: seq<T>, p: T -> bool)
    requires forall i :: 0 <= i < |r| ==> r[i] in s
    requires forall i :: 0 <= i < |s| ==> p(s[i])
    ensures forall i :: 0 <= i < |r| ==> p(r[i])
  {
    forall i | 0 <= i < |r|
      ensures p(r[i])
    {
      assert r[i] in s;
      var k :| 0 <= k < |s| && s[k] == r[i];
      assert p(s[k]);
    }
  }

  /** Every element of `s` that satisfies `keep` survives the filter. */
  lemma {:induction false} FilterKeepsMember<T>(s: seq<T>, keep: T -> bool, k: nat)
    requires k < |s| && keep(s[k])
    ensures s[k] in Filter(s, keep)
  {
    if k > 0 {
      FilterKeepsMember(s[1..], keep, k - 1);
    }
  }

  /** Filtering with a predicate every element satisfies changes nothing. */
  lemma {:induction false} FilterKeepsAll<T>(s: seq<T>, keep: T -> bool)
    requires forall i :: 0 <= i < |s| ==> keep(s[i])
    ensures Filter(s, keep) == s
  {
    if |s| > 0 {
      FilterKeepsAll(s[1..], keep);
      assert [s[0]] + s[1..] == s;
    }
  }

  /** An element the filter rejects can be appended without changing the result. */
  lemma {:induction false} FilterAppendRejected<T>(s: seq<T>, x: T, keep: T -> bool)
    requires !keep(x)
    ensures Filter(s + [x], keep) == Filter(s, keep)
  {
    if |s| > 0 {
      assert (s + [x])[1..] == s[1..] + [x];
      FilterAppendRejected(s[1..], x, keep);
    } else {
      assert s + [x] == [x];
    }
  }

  /** Filtering out an element that is present makes the sequence strictly shorter. */
  lemma {:induction false} FilterDropsSome<T>(s: seq<T>, keep: T -> bool, k: nat)
    requires k < |s| && !keep(s[k])
    ensures |Filter(s, keep)| < |s|
  {
    if k == 0 {
    } else {
      FilterDropsSome(s[1..], keep, k - 1);
    }
  }

  /** Everything the handlers rely on about one `filter` call, gathered in one place. */
  lemma FilterFacts<T>(s: seq<T>, keep: T -> bool)
    ensures var r := Filter(s, keep);
      && (forall i :: 0 <= i < |s| && keep(s[i]) ==> s[i] in r)
      && Selects(r, s, keep)
      && ((forall i :: 0 <= i < |s| ==> keep(s[i])) ==> r == s)
      && ((exists i :: 0 <= i < |s| && !keep(s[i])) ==> |r| < |s|)
  {
    var r := Filter(s, keep);
    FilterSelects(s, keep);
    forall i | 0 <= i < |s| && keep(s[i])
      ensures s[i] in r
    {
      FilterKeepsMember(s, keep, i);
    }
    if forall i :: 0 <= i < |s| ==> keep(s[i]) {
      FilterKeepsAll(s, keep);
    }
    if exists i :: 0 <= i < |s| && !keep(s[i]) {
      var i :| 0 <= i < |s| && !keep(s[i]);
      FilterDropsSome(s, keep, i);
    }
  }
}
