/** In-place replacement in the Arduino String. */
module StringReplace {
  import opened Option

  predicate MatchAt(s: string, find: string, i: nat) {
    i + |find| <= |s| && s[i..i + |find|] == find
  }

  /** The first match at or behind `from`, as strstr finds it. */
  function FirstMatch(s: string, find: string, from: nat): (r: Option<nat>)
    requires find != ""
    ensures r.Some? ==> from <= r.value && MatchAt(s, find, r.value)
    ensures forall i :: from <= i && (r.Some? ==> i < r.value) ==> !MatchAt(s, find, i)
    decreases |s| - from
  {
    if from + |find| > |s| then None
    else if MatchAt(s, find, from) then Some(from)
    else FirstMatch(s, find, from + 1)
  }

  /** Every leftmost match not overlapping an earlier one is replaced. */
  function ReplaceAll(s: string, find: string, rep: string): string
    requires find != ""
    decreases |s|
  {
    var found := FirstMatch(s, find, 0);
    if found.None? then s else Before(s, found.value) + rep + ReplaceAll(After(s, found.value, find), find, rep)
  }

  function Before(s: string, i: nat): string
    requires i <= |s|
  {
    s[..i]
  }

  function After(s: string, i: nat, find: string): (t: string)
    requires MatchAt(s, find, i)
    ensures |t| == |s| - i - |find|
  {
    s[i + |find|..]
  }

  /** The last match at or before `from`. */
  function LastMatch(s: string, find: string, from: int): (r: Option<nat>)
    requires find != "" && from < |s|
    ensures r.Some? ==> r.value <= from && MatchAt(s, find, r.value)
    ensures forall i :: (if r.Some? then r.value < i else 0 <= i) && i <= from ==> !MatchAt(s, find, i)
    decreases from + 1
  {
    if from < 0 then None
    else if MatchAt(s, find, from) then Some(from)
    else LastMatch(s, find, from - 1)
  }

  /** The backward loop of the growing branch: replace the last match, then look for one starting before it,
      in the text as it then is. */
  function ReplaceBackwards(s: string, index: int, find: string, rep: string): string
    requires find != "" && index < |s|
    decreases index + 1
  {
    match LastMatch(s, find, index)
    case None => s
    case Some(i) => ReplaceBackwards(s[..i] + rep + s[i + |find|..], i - 1, find, rep)
  }

  /** No proper suffix of the pattern is a prefix of the pattern or of the replacement: matches cannot
      overlap, and a replacement cannot complete a new match. */
  predicate Independent(find: string, rep: string) {
    forall k :: 0 < k < |find| ==> !(find[k..] <= find) && !(find[k..] <= rep)
  }

  /** No proper suffix of the pattern is a prefix of the replacement: a replacement cannot complete a new match. */
  predicate Uncompleted(find: string, rep: string) {
    forall k :: 0 < k < |find| ==> !(find[k..] <= rep)
  }

  // ---- Matches and concatenation ----

  lemma FirstMatchIs(s: string, find: string, i: nat)
    requires find != "" && MatchAt(s, find, i) && forall j :: 0 <= j < i ==> !MatchAt(s, find, j)
    ensures FirstMatch(s, find, 0) == Some(i)
  {}

  lemma NoMatch(s: string, find: string, rep: string)
    requires find != "" && forall j :: 0 <= j ==> !MatchAt(s, find, j)
    ensures ReplaceAll(s, find, rep) == s
  {}

  /** A match that straddles a boundary ends in a prefix of what is behind it. */
  lemma Straddle(p: string, q: string, find: string, other: string, i: nat)
    requires i < |p| && other <= q && |other| >= |find| && MatchAt(p + q, find, i)
    ensures (i + |find| <= |p| && MatchAt(p, find, i)) || (0 < |p| - i < |find| && find[|p| - i..] <= other)
  {
    var t := p + q;
    if i + |find| > |p| {
      var k := |p| - i;
      assert find[k..] == t[i..i + |find|][k..] == q[..|find| - k] == other[..|find| - k];
    } else {
      assert t[i..i + |find|] == p[i..i + |find|];
    }
  }

  /** Matches do not straddle a boundary behind which a match, or a replacement, begins. */
  lemma NoStraddle(p: string, q: string, find: string, rep: string, other: string)
    requires Independent(find, rep) && other <= q && |other| >= |find| && (other == find || other == rep)
    ensures forall i :: 0 <= i < |p| && MatchAt(p + q, find, i) ==> MatchAt(p, find, i)
  {
    forall i | 0 <= i < |p| && MatchAt(p + q, find, i) ensures MatchAt(p, find, i) {
      Straddle(p, q, find, other, i);
    }
  }

  lemma MatchExtends(p: string, q: string, find: string, i: nat)
    requires MatchAt(p, find, i)
    ensures MatchAt(p + q, find, i)
  {
    assert (p + q)[i..i + |find|] == p[i..i + |find|];
  }

  lemma MatchBehind(p: string, q: string, find: string, i: nat)
    requires MatchAt(q, find, i)
    ensures MatchAt(p + q, find, |p| + i)
  {
    assert (p + q)[|p| + i..|p| + i + |find|] == q[i..i + |find|];
  }

  lemma ReplaceAt(s: string, find: string, rep: string, i: nat)
    requires find != "" && FirstMatch(s, find, 0) == Some(i)
    ensures ReplaceAll(s, find, rep) == Before(s, i) + rep + ReplaceAll(After(s, i, find), find, rep)
  {
    hide FirstMatch, Before, After;
  }

  /** With independent matches, a text splits at any match. */
  lemma {:induction false} ReplaceSplits(p: string, q: string, find: string, rep: string)
    requires find != "" && Independent(find, rep) && |rep| >= |find|
    ensures ReplaceAll(p + (find + q), find, rep) == ReplaceAll(p, find, rep) + rep + ReplaceAll(q, find, rep)
    decreases |p|
  {
    hide Independent, MatchAt, ReplaceAll;
    var s := p + (find + q);
    NoStraddle(p, find + q, find, rep, find);
    match FirstMatch(p, find, 0) {
      case Some(i) =>
        FirstFits(p, find, i);
        MatchExtends(p, find + q, find, i);
        FirstMatchIs(s, find, i);
        ReplaceAt(s, find, rep, i);
        ReplaceAt(p, find, rep, i);
        var p' := p[i + |find|..];
        ReplaceSplits(p', q, find, rep);
        assert s[i + |find|..] == p' + (find + q) && s[..i] == p[..i];
      case None =>
        MatchItself(find, q);
        MatchBehind(p, find + q, find, 0);
        FirstMatchIs(s, find, |p|);
        ReplaceAt(s, find, rep, |p|);
        NoMatch(p, find, rep);
        assert s[..|p|] == p && s[|p| + |find|..] == q;
    }
  }

  lemma FirstFits(p: string, find: string, i: nat)
    requires MatchAt(p, find, i)
    ensures i + |find| <= |p|
  {}

  lemma MatchItself(find: string, q: string)
    ensures MatchAt(find + q, find, 0)
  {}

  lemma Cut(p: string, find: string, i: nat)
    requires MatchAt(p, find, i)
    ensures p == p[..i] + (find + p[i + |find|..])
  {}

  lemma NothingBehind(s: string, p: string, find: string, i: nat, q: string)
    requires p <= s && find != "" && MatchAt(p, find, i) && q == p[i + |find|..]
    requires forall j :: i < j < |p| ==> !MatchAt(s, find, j)
    ensures forall j :: 0 <= j ==> !MatchAt(q, find, j)
  {
    assert s == p[..i + |find|] + s[i + |find|..];
    forall j | 0 <= j ensures !MatchAt(q, find, j) {
      if MatchAt(q, find, j) {
        assert s[i + |find| + j..i + |find| + j + |find|] == q[j..j + |find|];
        assert MatchAt(s, find, i + |find| + j);
      }
    }
  }

  lemma BackwardsStep(s: string, index: int, find: string, rep: string, i: nat)
    requires find != "" && index < |s| && LastMatch(s, find, index) == Some(i)
    ensures i + |find| <= |s|
    ensures ReplaceBackwards(s, index, find, rep) ==
            ReplaceBackwards(s[..i] + rep + s[i + |find|..], i - 1, find, rep)
  {}

  /** The last match in `p` divides it into what the loop has still to look at and what has no match. */
  lemma LastSplits(p: string, done: string, find: string, rep: string, i: nat)
    requires find != "" && Independent(find, rep) && |rep| >= |find|
    requires done == "" || rep <= done
    requires i < |p| && LastMatch(p + done, find, |p| - 1) == Some(i)
    ensures i + |find| <= |p|
    ensures ReplaceAll(p, find, rep) == ReplaceAll(p[..i], find, rep) + rep + p[i + |find|..]
  {
    hide Independent, MatchAt, ReplaceAll, LastMatch;
    var s := p + done;
    if done == "" {
      assert s == p;
    } else {
      NoStraddle(p, done, find, rep, rep);
    }
    FirstFits(p, find, i);
    var q := p[i + |find|..];
    Cut(p, find, i);
    NothingBehind(s, p, find, i, q);
    NoMatch(q, find, rep);
    ReplaceSplits(p[..i], q, find, rep);
  }

  /** `done` is what the loop has finished with: it is empty or starts with a replacement. */
  lemma {:induction false} BackwardsFrom(p: string, done: string, find: string, rep: string)
    requires find != "" && Independent(find, rep) && |rep| >= |find|
    requires done == "" || rep <= done
    ensures ReplaceBackwards(p + done, |p| - 1, find, rep) == ReplaceAll(p, find, rep) + done
    decreases |p|
  {
    hide *;
    var s := p + done;
    match LastMatch(s, find, |p| - 1) {
      case None =>
        BackwardsNone(p, done, find, rep);
      case Some(i) =>
        BackwardsStep(s, |p| - 1, find, rep, i);
        LastSplits(p, done, find, rep, i);
        var p', done' := p[..i], rep + p[i + |find|..] + done;
        assert s[..i] + rep + s[i + |find|..] == p' + done';
        BackwardsFrom(p', done', find, rep);
    }
  }

  lemma BackwardsNone(p: string, done: string, find: string, rep: string)
    requires find != "" && LastMatch(p + done, find, |p| - 1) == None
    ensures ReplaceBackwards(p + done, |p| - 1, find, rep) == p + done
    ensures ReplaceAll(p, find, rep) == p
  {
    hide MatchAt;
    forall j | 0 <= j ensures !MatchAt(p, find, j) {
      if MatchAt(p, find, j) {
        MatchExtends(p, done, find, j);
        FirstFits(p, find, j);
      }
    }
    NoMatch(p, find, rep);
  }

  /** The growing branch as a whole. */
  function Grow(s: string, find: string, rep: string): string
    requires find != ""
  {
    ReplaceBackwards(s, |s| - 1, find, rep)
  }

  /** If matches and replacements are independent, the growing branch replaces every match, once. */
  lemma GrowCorrect(s: string, find: string, rep: string)
    requires find != "" && Independent(find, rep) && |rep| > |find|
    ensures Grow(s, find, rep) == ReplaceAll(s, find, rep)
  {
    BackwardsFrom(s, "", find, rep);
    assert s + "" == s && ReplaceAll(s, find, rep) + "" == ReplaceAll(s, find, rep);
  }

  // ---- If they are not, some text comes out wrong ----

  lemma {:induction false} BackwardsGrows(s: string, index: int, find: string, rep: string)
    requires find != "" && |rep| >= |find| && index < |s|
    ensures |ReplaceBackwards(s, index, find, rep)| >= |s|
    decreases index + 1
  {
    match LastMatch(s, find, index) {
      case None =>
      case Some(i) => BackwardsGrows(s[..i] + rep + s[i + |find|..], i - 1, find, rep);
    }
  }

  lemma LastMatchIs(s: string, find: string, from: int, i: nat)
    requires find != "" && i <= from < |s| && MatchAt(s, find, i)
    requires forall j :: i < j <= from ==> !MatchAt(s, find, j)
    ensures LastMatch(s, find, from) == Some(i)
  {}

  lemma OneOff(find: string, k: nat)
    requires 0 < k < |find|
    ensures MatchAt(find[..k] + find, find, k)
    ensures LastMatch(find[..k] + find, find, k + |find| - 1) == Some(k)
  {
    var s := find[..k] + find;
    assert s[k..k + |find|] == find;
    LastMatchIs(s, find, k + |find| - 1, k);
  }

  /** The first turn of the loop on `find[..k] + find` replaces the match at k. */
  lemma FirstTurn(find: string, rep: string, k: nat)
    requires 0 < k < |find| < |rep|
    ensures Grow(find[..k] + find, find, rep) == ReplaceBackwards(find[..k] + rep, k - 1, find, rep)
  {
    hide MatchAt, LastMatch, ReplaceBackwards;
    var s := find[..k] + find;
    OneOff(find, k);
    BackwardsStep(s, |s| - 1, find, rep, k);
    assert s[..k] == find[..k] && s[k + |find|..] == "" && s[..k] + rep + "" == find[..k] + rep;
  }

  /** Another match makes the text at least as long as two replacements. */
  lemma SecondTurn(t: string, find: string, rep: string, index: int)
    requires find != "" && |rep| > |find| && index < |t| && LastMatch(t, find, index).Some?
    ensures |ReplaceBackwards(t, index, find, rep)| >= |t| + |rep| - |find|
  {
    hide MatchAt, LastMatch, ReplaceBackwards;
    var i := LastMatch(t, find, index).value;
    BackwardsStep(t, index, find, rep, i);
    BackwardsGrows(t[..i] + rep + t[i + |find|..], i - 1, find, rep);
  }

  lemma ShortText(s: string, find: string, rep: string)
    requires find != "" && |s| < |find|
    ensures ReplaceAll(s, find, rep) == s
  {}

  /** The leftmost replacement of `find[..k] + find` replaces one match only. */
  lemma {:induction false} LeftmostOnce(find: string, rep: string, k: nat)
    requires 0 < k < |find| < |rep|
    ensures |ReplaceAll(find[..k] + find, find, rep)| == k + |rep|
  {
    var s := find[..k] + find;
    OneOff(find, k);
    var found := FirstMatch(s, find, 0);
    var i := found.value;
    assert i <= k;
    ReplaceAt(s, find, rep, i);
    ShortText(After(s, i, find), find, rep);
  }

  /** A replacement that completes a match: the loop replaces that one as well, and makes the text longer than the size
      counted forward by the length of one more replacement. */
  lemma CompletedMatch(find: string, rep: string, k: nat)
    requires 0 < k < |find| < |rep| && find[k..] <= rep
    ensures |Grow(find[..k] + find, find, rep)| >= |ReplaceAll(find[..k] + find, find, rep)| + |rep| - |find|
    ensures |ReplaceAll(find[..k] + find, find, rep)| == k + |rep|
  {
    hide LastMatch, ReplaceBackwards, ReplaceAll;
    FirstTurn(find, rep, k);
    LeftmostOnce(find, rep, k);
    CompletedAtZero(find, rep, k);
    SecondTurn(find[..k] + rep, find, rep, k - 1);
  }

  /** The front of the pattern, before something that starts with the rest of it, is a match. */
  lemma SplicedMatch(find: string, k: nat, q: string)
    requires k <= |find| && find[k..] <= q
    ensures MatchAt(find[..k] + q, find, 0)
  {
    var t := find[..k] + q;
    forall j | 0 <= j < |find| ensures t[j] == find[j] {
      if j >= k {
        assert t[j] == q[j - k];
        assert find[k..][j - k] == find[j];
      }
    }
    assert t[0..|find|] == find;
  }

  lemma CompletedAtZero(find: string, rep: string, k: nat)
    requires 0 < k < |find| < |rep| && find[k..] <= rep
    ensures LastMatch(find[..k] + rep, find, k - 1).Some?
  {
    SplicedMatch(find, k, rep);
    hide MatchAt, LastMatch;
  }

  lemma OverlapAtZero(find: string, k: nat)
    requires 0 < k < |find| && find[k..] <= find
    ensures MatchAt(find[..k] + find, find, 0)
  {
    SplicedMatch(find, k, find);
  }

  lemma ReplaceAtZero(s: string, find: string, rep: string)
    requires find != "" && MatchAt(s, find, 0)
    ensures rep <= ReplaceAll(s, find, rep)
  {
    FirstMatchIs(s, find, 0);
    hide FirstMatch, MatchAt;
    ReplaceAt(s, find, rep, 0);
    assert Before(s, 0) == "";
  }

  /** Overlapping matches: the loop replaces the right one first, the reference the left one. */
  lemma OverlapDiffers(find: string, rep: string, k: nat)
    requires 0 < k < |find| < |rep| && find[k..] <= find && !(find[k..] <= rep)
    ensures Grow(find[..k] + find, find, rep) != ReplaceAll(find[..k] + find, find, rep)
  {
    hide *;
    FirstTurn(find, rep, k);
    var t := find[..k] + rep;
    if LastMatch(t, find, k - 1).Some? {
      LeftmostOnce(find, rep, k);
      SecondTurn(t, find, rep, k - 1);
      assert |t| == k + |rep|;
    } else {
      BackwardsStops(t, find, rep, k - 1);
      LeftmostIsNot(find, rep, k);
    }
  }

  lemma LeftmostIsNot(find: string, rep: string, k: nat)
    requires 0 < k < |find| < |rep| && find[k..] <= find && !(find[k..] <= rep)
    ensures ReplaceAll(find[..k] + find, find, rep) != find[..k] + rep
  {
    hide *;
    OverlapAtZero(find, k);
    ReplaceAtZero(find[..k] + find, find, rep);
    PeriodMeets(find, rep, ReplaceAll(find[..k] + find, find, rep), k);
  }

  /** A text that starts with the replacement is not the start of the pattern before the replacement. */
  lemma PeriodMeets(find: string, rep: string, left: string, k: nat)
    requires 0 < k < |find| < |rep| && find[k..] <= find && !(find[k..] <= rep) && rep <= left
    ensures find[..k] + rep != left
  {
    if find[..k] + rep == left {
      PeriodicPrefix(find, rep, left[|rep|..], k, |find| - k);
    }
  }

  lemma BackwardsStops(t: string, find: string, rep: string, index: int)
    requires find != "" && index < |t| && LastMatch(t, find, index).None?
    ensures ReplaceBackwards(t, index, find, rep) == t
  {}

  /** A word that commutes this way continues the period of the pattern. */
  lemma {:induction false} PeriodicPrefix(find: string, rep: string, rest: string, k: nat, n: nat)
    requires 0 < k < |find| < |rep| && find[k..] <= find && find[..k] + rep == rep + rest
    requires n <= |find| - k
    ensures rep[..n] == find[k..][..n]
  {
    if n > 0 {
      PeriodicPrefix(find, rep, rest, k, n - 1);
      var j := n - 1;
      assert rep[j] == (rep + rest)[j] == (find[..k] + rep)[j];
      if j < k {
        assert find[k..][j] == find[j];
      } else {
        assert rep[j] == rep[j - k] == rep[..n - 1][j - k] == find[k..][j - k];
        assert find[k..][j] == find[j];
      }
    }
  }

  lemma OneTextDiffers(find: string, rep: string, k: nat)
    requires 0 < k < |find| < |rep| && (find[k..] <= find || find[k..] <= rep)
    ensures Grow(find[..k] + find, find, rep) != ReplaceAll(find[..k] + find, find, rep)
  {
    hide *;
    if find[k..] <= rep {
      CompletedMatch(find, rep, k);
      LeftmostOnce(find, rep, k);
    } else {
      OverlapDiffers(find, rep, k);
    }
  }

  /** Exactly when the growing branch can be trusted: it agrees with the leftmost replacement on every text
      if and only if no proper suffix of the pattern is a prefix of the pattern or of the replacement. One
      character patterns always qualify. */
  lemma GrowExact(find: string, rep: string)
    requires find != "" && |rep| > |find|
    ensures (forall s :: Grow(s, find, rep) == ReplaceAll(s, find, rep)) <==> Independent(find, rep)
    ensures |find| == 1 ==> Independent(find, rep)
  {
    if Independent(find, rep) {
      forall s ensures Grow(s, find, rep) == ReplaceAll(s, find, rep) {
        GrowCorrect(s, find, rep);
      }
    } else {
      var k :| 0 < k < |find| && (find[k..] <= find || find[k..] <= rep);
      OneTextDiffers(find, rep, k);
    }
  }

  // ---- The size counted forward ----

  lemma InFront(s: string, find: string, i: nat)
    requires i <= |s|
    ensures forall j :: 0 <= j && MatchAt(s[..i], find, j) ==> MatchAt(s, find, j) && j + |find| <= i
  {
    forall j | 0 <= j && MatchAt(s[..i], find, j) ensures MatchAt(s, find, j) && j + |find| <= i {
      assert s[j..j + |find|] == s[..i][j..j + |find|];
    }
  }

  lemma NoMatchInFront(s: string, find: string, f: nat, i: nat)
    requires find != "" && i <= |s| && FirstMatch(s, find, 0) == Some(f) && i < f + |find|
    ensures forall j :: 0 <= j ==> !MatchAt(s[..i], find, j)
  {
    InFront(s, find, i);
    hide MatchAt;
  }

  lemma FirstInFront(s: string, find: string, f: nat, i: nat)
    requires find != "" && i <= |s| && FirstMatch(s, find, 0) == Some(f) && f + |find| <= i
    ensures FirstMatch(s[..i], find, 0) == Some(f)
  {
    assert s[..i][f..f + |find|] == s[f..f + |find|];
    InFront(s, find, i);
    FirstMatchIs(s[..i], find, f);
  }

  /** Wherever a match is, replacing from the left gains at least as much as in front of it and once more. */
  lemma {:induction false} LeftGains(s: string, find: string, rep: string, i: nat)
    requires 0 < |find| < |rep| && MatchAt(s, find, i)
    ensures i + |find| <= |s|
    ensures |ReplaceAll(s, find, rep)| - |s| >= |ReplaceAll(s[..i], find, rep)| - i + (|rep| - |find|)
    decreases |s|
  {
    FirstFits(s, find, i);
    FirstAtMost(s, find, i);
    var f := FirstMatch(s, find, 0).value;
    ReplaceAt(s, find, rep, f);
    FirstFits(s, find, f);
    var rest := After(s, f, find);
    if f + |find| <= i {
      FirstInFront(s, find, f, i);
      ReplaceAt(s[..i], find, rep, f);
      RestInFront(s, find, f, i);
      hide MatchAt, FirstMatch, ReplaceAll, After;
      LeftGains(rest, find, rep, i - f - |find|);
    } else {
      NoMatchInFront(s, find, f, i);
      NoMatch(s[..i], find, rep);
      ReplaceLonger(rest, find, rep);
    }
  }

  lemma FirstAtMost(s: string, find: string, i: nat)
    requires find != "" && MatchAt(s, find, i)
    ensures FirstMatch(s, find, 0).Some? && FirstMatch(s, find, 0).value <= i
  {}

  lemma RestInFront(s: string, find: string, f: nat, i: nat)
    requires MatchAt(s, find, f) && MatchAt(s, find, i) && f + |find| <= i && MatchAt(s[..i], find, f)
    ensures MatchAt(After(s, f, find), find, i - f - |find|)
    ensures After(s[..i], f, find) == After(s, f, find)[..i - f - |find|]
  {
    var k := i - f - |find|;
    assert After(s, f, find)[k..k + |find|] == s[i..i + |find|];
  }

  /** If no replacement completes a match, the loop makes at most the replacements that are counted from the left. */
  lemma {:induction false} BackwardsFits(p: string, done: string, find: string, rep: string)
    requires 0 < |find| < |rep| && Uncompleted(find, rep) && (done == "" || rep <= done)
    ensures |ReplaceBackwards(p + done, |p| - 1, find, rep)| <= |ReplaceAll(p, find, rep)| + |done|
    decreases |p|
  {
    hide *;
    var s := p + done;
    match LastMatch(s, find, |p| - 1) {
      case None =>
        BackwardsNone(p, done, find, rep);
      case Some(i) =>
        BackwardsStep(s, |p| - 1, find, rep, i);
        LastStaysInFront(p, done, find, rep, i);
        var p', done' := p[..i], rep + p[i + |find|..] + done;
        assert s[..i] + rep + s[i + |find|..] == p' + done';
        BackwardsFits(p', done', find, rep);
        LeftGains(p, find, rep, i);
    }
  }

  lemma LastStaysInFront(p: string, done: string, find: string, rep: string, i: nat)
    requires 0 < |find| < |rep| && Uncompleted(find, rep) && (done == "" || rep <= done)
    requires LastMatch(p + done, find, |p| - 1) == Some(i)
    ensures i + |find| <= |p| && MatchAt(p, find, i)
  {
    if done == "" {
      assert p + done == p;
    } else {
      Straddle(p, done, find, rep, i);
    }
  }

  lemma UncompletedFits(s: string, find: string, rep: string)
    requires 0 < |find| < |rep| && Uncompleted(find, rep)
    ensures |Grow(s, find, rep)| <= |ReplaceAll(s, find, rep)|
  {
    BackwardsFits(s, "", find, rep);
    assert s + "" == s;
  }

  /** Exactly when the size counted forward is enough: for every text if and only if no proper suffix of the pattern
      is a prefix of the replacement, whether or not the pattern overlaps itself. */
  lemma FitsExact(find: string, rep: string)
    requires 0 < |find| < |rep|
    ensures (forall s :: |Grow(s, find, rep)| <= |ReplaceAll(s, find, rep)|) <==> Uncompleted(find, rep)
  {
    if Uncompleted(find, rep) {
      forall s ensures |Grow(s, find, rep)| <= |ReplaceAll(s, find, rep)| {
        UncompletedFits(s, find, rep);
      }
    } else {
      var k :| 0 < k < |find| && find[k..] <= rep;
      OneTextTooLong(find, rep, k);
    }
  }

  lemma OneTextTooLong(find: string, rep: string, k: nat)
    requires 0 < k < |find| < |rep| && find[k..] <= rep
    ensures |Grow(find[..k] + find, find, rep)| > |ReplaceAll(find[..k] + find, find, rep)|
  {
    CompletedMatch(find, rep, k);
  }

  // ---- The in-place loops ----

  predicate Plain(s: string) {
    '\0' !in s
  }

  /** What a C function reads from a buffer: everything in front of the first NUL. */
  function CText(b: seq<char>): (t: string)
    ensures |t| <= |b| && t <= b && Plain(t)
    ensures |t| < |b| ==> b[|t|] == '\0'
  {
    if b == [] || b[0] == '\0' then "" else [b[0]] + CText(b[1..])
  }

  lemma {:induction false} CTextIs(s: string, b: seq<char>)
    requires Plain(s) && |s| < |b| && s <= b && b[|s|] == '\0'
    ensures CText(b) == s
  {
    if |s| > 0 {
      CTextIs(s[1..], b[1..]);
    }
  }

  /** strstr from offset `from` of a buffer. */
  function Strstr(b: seq<char>, from: nat, find: string): Option<nat>
    requires find != "" && from <= |b|
  {
    match FirstMatch(CText(b[from..]), find, 0)
    case None => None
    case Some(i) => Some(from + i)
  }

  /** One step of the leftmost replacement, on the text from offset r on. */
  lemma ReplaceTail(s: string, r: nat, b: seq<char>, find: string, rep: string)
    requires find != "" && Plain(s) && r <= |s| < |b| && b[r..|s|] == s[r..] && b[|s|] == '\0'
    ensures match Strstr(b, r, find)
            case None => ReplaceAll(s[r..], find, rep) == s[r..]
            case Some(i) =>
              r <= i && i + |find| <= |s| &&
              ReplaceAll(s[r..], find, rep) == s[r..i] + rep + ReplaceAll(s[i + |find|..], find, rep)
  {
    hide MatchAt, ReplaceAll, FirstMatch, CText;
    var t := s[r..];
    assert t <= b[r..] && b[r..][|t|] == '\0';
    CTextIs(t, b[r..]);
    match FirstMatch(t, find, 0) {
      case None =>
        NoMatch(t, find, rep);
      case Some(j) =>
        ReplaceAt(t, find, rep, j);
        FirstFits(t, find, j);
        CutTail(s, r, j, |find|);
    }
  }

  lemma CutTail(s: string, r: nat, j: nat, n: nat)
    requires r + j + n <= |s|
    ensures s[r..][..j] == s[r..r + j] && s[r..][j + n..] == s[r + j + n..]
  {}

  lemma {:induction false} ReplacePlain(s: string, find: string, rep: string)
    requires find != "" && Plain(s) && Plain(rep)
    ensures Plain(ReplaceAll(s, find, rep))
    decreases |s|
  {
    match FirstMatch(s, find, 0) {
      case None =>
      case Some(i) => ReplacePlain(After(s, i, find), find, rep);
    }
  }

  /** Replacing by something longer makes the text longer, unless there is nothing to replace. */
  lemma {:induction false} ReplaceLonger(s: string, find: string, rep: string)
    requires find != "" && |rep| > |find|
    ensures |ReplaceAll(s, find, rep)| >= |s|
    ensures |ReplaceAll(s, find, rep)| == |s| ==> Grow(s, find, rep) == s && ReplaceAll(s, find, rep) == s
    decreases |s|
  {
    match FirstMatch(s, find, 0) {
      case None =>
        NoMatch(s, find, rep);
      case Some(i) =>
        ReplaceAt(s, find, rep, i);
        ReplaceLonger(After(s, i, find), find, rep);
    }
  }

  /** The capacity changeBuffer allocates for a text of n characters. */
  function NewCapacity(n: nat): (c: nat)
    ensures n <= c && (c + 1) % 16 == 0
  {
    (n + 16) / 16 * 16 - 1
  }

  /** The capacity the growing branch works with. */
  function GrowCapacity(s: string, find: string, rep: string, capacity: nat): nat
    requires find != ""
  {
    var size := |ReplaceAll(s, find, rep)|;
    if size > capacity then NewCapacity(size) else capacity
  }

  /** If no replacement completes a match, the result fits the capacity that is made for the counted size. */
  lemma GrowFits(s: string, find: string, rep: string, capacity: nat)
    requires 0 < |find| < |rep| && Uncompleted(find, rep)
    ensures |Grow(s, find, rep)| <= GrowCapacity(s, find, rep, capacity)
  {
    UncompletedFits(s, find, rep);
    hide Grow, ReplaceAll;
  }

  lemma IndependentFits(s: string, find: string, rep: string, capacity: nat)
    requires 0 < |find| < |rep| && Independent(find, rep)
    ensures |Grow(s, find, rep)| <= GrowCapacity(s, find, rep, capacity)
  {
    GrowFits(s, find, rep, capacity);
  }

  /** A text without the first character of the pattern. */
  predicate Strange(p: string, find: string)
    requires find != ""
  {
    find[0] !in p
  }

  lemma MatchHead(s: string, find: string, i: nat)
    requires find != "" && MatchAt(s, find, i)
    ensures s[i] == find[0]
  {
    assert s[i] == s[i..i + |find|][0];
  }

  /** In front of a text it has no match, and completes none. */
  lemma NoMatchInStrange(p: string, t: string, find: string)
    requires find != "" && Strange(p, find)
    ensures forall i :: 0 <= i < |p| ==> !MatchAt(p + t, find, i)
    ensures forall i {:trigger MatchAt(p + t, find, i)} ::
              |p| <= i ==> MatchAt(p + t, find, i) == MatchAt(t, find, i - |p|)
  {
    forall i | 0 <= i < |p| ensures !MatchAt(p + t, find, i) {
      assert p[i] in p;
      if MatchAt(p + t, find, i) {
        MatchHead(p + t, find, i);
      }
    }
    forall i | |p| <= i ensures MatchAt(p + t, find, i) == MatchAt(t, find, i - |p|) {
      if i + |find| <= |p + t| {
        assert (p + t)[i..i + |find|] == t[i - |p|..i - |p| + |find|];
      }
    }
  }

  /** So both ways of replacing leave it alone. */
  lemma LeftmostBehind(p: string, t: string, find: string, rep: string)
    requires find != "" && Strange(p, find)
    ensures |ReplaceAll(p + t, find, rep)| == |p| + |ReplaceAll(t, find, rep)|
  {
    hide MatchAt, ReplaceAll, FirstMatch;
    NoMatchInStrange(p, t, find);
    match FirstMatch(t, find, 0) {
      case None =>
        NoMatch(t, find, rep);
        NoMatch(p + t, find, rep);
      case Some(i) =>
        FirstFits(t, find, i);
        assert MatchAt(p + t, find, |p| + i);
        FirstMatchIs(p + t, find, |p| + i);
        ReplaceAt(t, find, rep, i);
        ReplaceAt(p + t, find, rep, |p| + i);
        assert (p + t)[|p| + i + |find|..] == t[i + |find|..];
    }
  }

  lemma {:induction false} BackwardsBehind(p: string, t: string, index: int, find: string, rep: string)
    requires find != "" && Strange(p, find) && -1 <= index < |t|
    ensures |ReplaceBackwards(p + t, |p| + index, find, rep)| == |p| + |ReplaceBackwards(t, index, find, rep)|
    decreases index + 1
  {
    hide MatchAt, ReplaceBackwards, LastMatch;
    NoMatchInStrange(p, t, find);
    match LastMatch(t, find, index) {
      case None =>
        BackwardsStops(t, find, rep, index);
        NoLastBehind(p, t, index, find);
        BackwardsStops(p + t, find, rep, |p| + index);
      case Some(i) =>
        assert MatchAt(p + t, find, |p| + i);
        LastMatchIs(p + t, find, |p| + index, |p| + i);
        BackwardsStep(t, index, find, rep, i);
        BackwardsStep(p + t, |p| + index, find, rep, |p| + i);
        var u := t[..i] + rep + t[i + |find|..];
        assert (p + t)[..|p| + i] + rep + (p + t)[|p| + i + |find|..] == p + u;
        BackwardsBehind(p, u, i - 1, find, rep);
    }
  }

  lemma NoLastBehind(p: string, t: string, index: int, find: string)
    requires find != "" && Strange(p, find) && -1 <= index < |t| && LastMatch(t, find, index) == None
    ensures LastMatch(p + t, find, |p| + index) == None
  {
    hide MatchAt, LastMatch;
    NoMatchInStrange(p, t, find);
    forall i | 0 <= i <= |p| + index ensures !MatchAt(p + t, find, i) {
      if |p| <= i {
        assert !MatchAt(t, find, i - |p|);
      }
    }
  }

  function Filler(find: string, n: nat): (p: string)
    requires find != ""
    ensures |p| == n && Strange(p, find) && Plain(p)
  {
    seq(n, _ => if find[0] == 'a' then 'b' else 'a')
  }

  /** A text whose counted size fills a capacity to the last character: the overlapping pattern behind so many other
      characters. */
  function FullText(find: string, rep: string, k: nat): string
    requires 0 < k < |find|
  {
    Filler(find, 15 - (k + |rep|) % 16) + (find[..k] + find)
  }

  /** If a replacement completes a match, that text, in a String just made of it, does not fit. */
  lemma GrowExceeds(find: string, rep: string, k: nat)
    requires 0 < k < |find| < |rep| && find[k..] <= rep
    ensures var s := FullText(find, rep, k);
            && |Grow(s, find, rep)| > |ReplaceAll(s, find, rep)| == GrowCapacity(s, find, rep, NewCapacity(|s|))
            && (Plain(find) ==> Plain(s))
  {
    hide ReplaceAll, ReplaceBackwards, NewCapacity;
    var p, t := Filler(find, 15 - (k + |rep|) % 16), find[..k] + find;
    CompletedMatch(find, rep, k);
    LeftmostBehind(p, t, find, rep);
    BackwardsBehind(p, t, |t| - 1, find, rep);
    FullCapacity(|p| + k + |rep|, |p + t|);
  }

  lemma FullCapacity(n: nat, m: nat)
    requires n % 16 == 15 && m <= n
    ensures NewCapacity(n) == n && NewCapacity(m) <= n
  {}

  /** Exactly when the source stays inside the buffer: for every text, in a String just made of it, if and only if no
      proper suffix of the pattern is a prefix of the replacement. */
  lemma CapacityExact(find: string, rep: string)
    requires 0 < |find| < |rep|
    ensures (forall s :: |Grow(s, find, rep)| <= GrowCapacity(s, find, rep, NewCapacity(|s|))) <==>
            Uncompleted(find, rep)
  {
    hide Grow, GrowCapacity, NewCapacity;
    if Uncompleted(find, rep) {
      forall s ensures |Grow(s, find, rep)| <= GrowCapacity(s, find, rep, NewCapacity(|s|)) {
        GrowFits(s, find, rep, NewCapacity(|s|));
      }
    } else {
      var k :| 0 < k < |find| && find[k..] <= rep;
      GrowExceeds(find, rep, k);
    }
  }

  /** Replacing "ab" by fourteen b in "aab": fifteen characters are counted, and fit the capacity of fifteen that
      the String has from the start, but the loop makes twenty-seven. */
  lemma ExceedsInAab()
    ensures |ReplaceAll("aab", "ab", "bbbbbbbbbbbbbb")| == 15
    ensures GrowCapacity("aab", "ab", "bbbbbbbbbbbbbb", NewCapacity(3)) == 15
    ensures |Grow("aab", "ab", "bbbbbbbbbbbbbb")| >= 27
  {
    var find, rep := "ab", "bbbbbbbbbbbbbb";
    assert find[..1] + find == "aab" && find[1..] == rep[..1];
    CompletedMatch(find, rep, 1);
    hide Grow, ReplaceAll;
  }

  /** The buffer after `src` has been copied to `at`. */
  function Patched(b: seq<char>, at: nat, src: string): (c: seq<char>)
    requires at + |src| <= |b|
    ensures |c| == |b|
  {
    b[..at] + src + b[at + |src|..]
  }

  lemma PatchedParts(b: seq<char>, at: nat, src: string)
    requires at + |src| <= |b|
    ensures Patched(b, at, src)[..at + |src|] == b[..at] + src
    ensures forall k {:trigger b[k..]} :: at + |src| <= k <= |b| ==> Patched(b, at, src)[k..] == b[k..]
  {}

  /** Copies `src` into the buffer. */
  method CopyIn(b: array<char>, at: nat, src: string)
    requires at + |src| <= b.Length
    modifies b
    ensures b[..] == Patched(old(b[..]), at, src)
  {
    forall k | 0 <= k < |src| {
      b[at + k] := src[k];
    }
  }

  /** One turn of the equal-length loop; x is the replacement of what is left. */
  lemma EqualStep(s: string, b: seq<char>, r: nat, i: nat, rep: string, x: string)
    requires r <= i && i + |rep| <= |s| < |b| && b[r..|s|] == s[r..]
    ensures var c, q := Patched(b, i, rep), i + |rep|;
            c[q..|s|] == s[q..] && c[|s|] == b[|s|] && c[..q] + x == b[..r] + (s[r..i] + rep + x)
  {
    var c, q := Patched(b, i, rep), i + |rep|;
    PatchedParts(b, i, rep);
    hide Patched;
    Sliced(b, s, r, i);
    Sliced(b, s, r, q);
    assert c[q..|s|] == c[q..][..|s| - q] && b[q..|s|] == b[q..][..|s| - q];
    assert c[|s|] == c[q..][|s| - q] == b[q..][|s| - q];
    assert b[..i] == b[..r] + s[r..i];
  }

  lemma Sliced(b: seq<char>, s: string, r: nat, q: nat)
    requires r <= q <= |s| <= |b| && b[r..|s|] == s[r..]
    ensures b[r..q] == s[r..q] && b[q..|s|] == s[q..]
  {
    forall k | r <= k < |s| ensures b[k] == s[k] {
      assert b[k] == b[r..|s|][k - r];
      assert s[k] == s[r..][k - r];
    }
  }

  /** One turn of the shrinking loop: the text in front of the match moves down, then the replacement follows. */
  lemma ShorterStep(s: string, b: seq<char>, r: nat, w: nat, i: nat, q: nat, rep: string, x: string)
    requires w <= r <= i && i + |rep| <= q <= |s| < |b| && b[r..|s|] == s[r..]
    ensures b[r..i] == s[r..i]
    ensures var v := w + (i - r);
            var d := Patched(Patched(b, w, b[r..i]), v, rep);
            d[q..|s|] == s[q..] && d[|s|] == b[|s|] && d[..v + |rep|] + x == b[..w] + (s[r..i] + rep + x)
  {
    Sliced(b, s, r, i);
    Sliced(b, s, r, q);
    var v := w + (i - r);
    assert |b[r..i]| == i - r;
    var c := Patched(b, w, b[r..i]);
    var d := Patched(c, v, rep);
    PatchedParts(b, w, b[r..i]);
    PatchedParts(c, v, rep);
    hide Patched;
    assert c[..v] == b[..w] + s[r..i] && d[..v + |rep|] == c[..v] + rep;
    SameTail(b, d, q, |s|);
  }

  lemma SameTail(b: seq<char>, d: seq<char>, q: nat, n: nat)
    requires q <= n < |b| == |d| && b[q..] == d[q..]
    ensures b[q..n] == d[q..n] && b[n] == d[n]
  {
    assert b[q..n] == b[q..][..n - q] && d[q..n] == d[q..][..n - q];
    assert b[n] == b[q..][n - q] && d[n] == d[q..][n - q];
  }

  /** The shrinking loop: the text is still in place from r on, and what was written up to w is right. */
  ghost predicate Shrinking(s: string, b: seq<char>, r: nat, w: nat, find: string, rep: string)
    requires find != ""
  {
    && w <= r <= |s| < |b| && b[r..|s|] == s[r..] && b[|s|] == '\0'
    && b[..w] + ReplaceAll(s[r..], find, rep) == ReplaceAll(s, find, rep)
  }

  lemma ShrinkingStarts(s: string, b: seq<char>, find: string, rep: string)
    requires find != "" && |s| < |b| && b[..|s|] == s && b[|s|] == '\0'
    ensures Shrinking(s, b, 0, 0, find, rep)
  {
    hide ReplaceAll;
    assert s[0..] == s && b[..0] == [];
  }

  method MoveDown(b: array<char>, ghost s: string, r: nat, w: nat, i: nat, find: string, rep: string)
    requires Plain(s) && |rep| < |find| && Shrinking(s, b[..], r, w, find, rep) && Strstr(b[..], r, find) == Some(i)
    modifies b
    ensures r <= i && i + |find| <= |s|
    ensures Shrinking(s, b[..], i + |find|, w + (i - r) + |rep|, find, rep)
  {
    hide Patched, Plain, Strstr, ReplaceAll;
    ReplaceTail(s, r, b[..], find, rep);
    ShorterStep(s, b[..], r, w, i, i + |find|, rep, ReplaceAll(s[i + |find|..], find, rep));
    CopyIn(b, w, b[r..i]);
    CopyIn(b, w + (i - r), rep);
  }

  /** The rest of the text moves down with its NUL, as strcpy does it. */
  method MoveRest(b: array<char>, ghost s: string, r: nat, w: nat, ghost find: string, ghost rep: string)
    requires find != "" && Plain(s) && Shrinking(s, b[..], r, w, find, rep) && Strstr(b[..], r, find) == None
    modifies b
    ensures b[..w + |s| - r] == ReplaceAll(s, find, rep) && b[w + |s| - r] == '\0'
  {
    hide CText, Patched, Plain, Strstr, ReplaceAll;
    ReplaceTail(s, r, b[..], find, rep);
    TailText(s, b[..], r);
    var rest := CText(b[r..]);
    LastCopy(b[..], w, rest);
    CopyIn(b, w, rest + "\0");
  }

  /** One turn of the growing loop: the text behind the match moves up, then the replacement is put in front of it. */
  lemma GrowStep(b: seq<char>, len: nat, i: nat, r: nat, rep: string)
    requires i <= r <= len < |b| && r - i <= |rep| && i + |rep| + len - r < |b|
    ensures var q := i + |rep|;
            var c := Patched(b, q, b[r..len]);
            var d := c[q + (len - r) := '\0'];
            var e := Patched(d, i, rep);
            e[..q + (len - r)] == b[..i] + rep + b[r..len] && e[q + (len - r)] == '\0'
  {}

  lemma LastCopy(b: seq<char>, w: nat, rest: string)
    requires w + |rest| < |b|
    ensures var c := Patched(b, w, rest + "\0"); c[..w + |rest|] == b[..w] + rest && c[w + |rest|] == '\0'
  {}

  lemma GrownPlain(b: seq<char>, n: nat, i: nat, r: nat, rep: string)
    requires i <= r <= n <= |b| && Plain(b[..n]) && Plain(rep)
    ensures Plain(b[..i] + rep + b[r..n])
  {
    assert b[r..n] == b[..n][r..];
    assert b[..i] == b[..n][..i];
  }

  lemma TailText(s: string, b: seq<char>, r: nat)
    requires r <= |s| < |b| && Plain(s) && b[r..|s|] == s[r..] && b[|s|] == '\0'
    ensures CText(b[r..]) == s[r..]
  {
    assert s[r..] <= b[r..] && b[r..][|s| - r] == b[|s|];
    CTextIs(s[r..], b[r..]);
  }

  lemma BackwardsEnds(t: string, find: string, rep: string, index: int)
    requires find != "" && index < 0
    ensures ReplaceBackwards(t, index, find, rep) == t
  {}

  lemma EmptyText(find: string, rep: string)
    ensures find != "" ==> ReplaceAll("", find, rep) == Grow("", find, rep) == ""
  {}

  lemma MatchInTail(s: string, from: nat, find: string)
    requires from <= |s|
    ensures forall j {:trigger MatchAt(s, find, j)} ::
              from <= j && MatchAt(s, find, j) ==> MatchAt(s[from..], find, j - from)
    ensures forall j {:trigger MatchAt(s[from..], find, j)} ::
              0 <= j && MatchAt(s[from..], find, j) ==> MatchAt(s, find, from + j)
  {
    var t := s[from..];
    assert s == s[..from] + t;
    forall j | from <= j && MatchAt(s, find, j) ensures MatchAt(t, find, j - from) {
      assert t[j - from..j - from + |find|] == s[j..j + |find|];
    }
    forall j | 0 <= j && MatchAt(t, find, j) ensures MatchAt(s, find, from + j) {
      MatchBehind(s[..from], t, find, j);
    }
  }

  /** strstr finds the first match at or behind its start. */
  lemma StrstrFirst(s: string, from: nat, b: seq<char>, find: string)
    requires find != "" && Plain(s) && from <= |s| < |b| && s <= b && b[|s|] == '\0'
    ensures match Strstr(b, from, find)
            case None => forall j :: from <= j ==> !MatchAt(s, find, j)
            case Some(i) => from <= i && MatchAt(s, find, i) && forall j :: from <= j < i ==> !MatchAt(s, find, j)
  {
    hide MatchAt, CText, FirstMatch;
    CTextIs(s[from..], b[from..]);
    MatchInTail(s, from, find);
  }

  class ArduinoString {
    var buffer: array?<char>
    var len: nat
    var capacity: nat

    ghost predicate Valid()
      reads this, buffer
    {
      buffer != null && buffer.Length == capacity + 1 && len <= capacity && buffer[len] == '\0' && Plain(buffer[..len])
    }

    ghost function Text(): string
      reads this, buffer
      requires Valid()
    {
      buffer[..len]
    }

    constructor (s: string)
      requires Plain(s)
      ensures Valid() && fresh(buffer) && Text() == s && capacity == NewCapacity(|s|)
    {
      var b := new char[NewCapacity(|s|) + 1](_ => '\0');
      CopyIn(b, 0, s + "\0");
      buffer, len, capacity := b, |s|, NewCapacity(|s|);
    }

    /** The greatest match at or before `from`, or -1. */
    method LastIndexOf(find: string, from: nat) returns (found: int)
      requires Valid() && Plain(find)
      ensures find == "" || len == 0 ==> found == -1
      ensures find != "" && len > 0 ==>
                LastMatch(Text(), find, if from >= len then len - 1 else from) ==
                (if found < 0 then None else Some(found))
    {
      found := -1;
      if find == "" || len == 0 || |find| > len {
        return;
      }
      var last := if from >= len then len - 1 else from;
      ghost var t := Text();
      var p := 0;
      while p <= last
        invariant 0 <= p <= last + 1 || p <= len
        invariant -1 <= found <= last && found < p
        invariant found >= 0 ==> MatchAt(t, find, found)
        invariant forall j :: found < j < p && j <= last ==> !MatchAt(t, find, j)
        decreases len + 1 - p
      {
        StrstrFirst(t, p, buffer[..], find);
        var next := Strstr(buffer[..], p, find);
        if next.None? {
          break;
        }
        if next.value <= last {
          found := next.value;
        }
        p := next.value + 1;
      }
      if found >= 0 {
        LastMatchIs(t, find, last, found);
      }
    }

    /** Grows the buffer, or loses it: a failed realloc leaves a null buffer under the old length. */
    method ChangeBuffer(n: nat, granted: bool) returns (ok: bool)
      requires buffer != null && buffer.Length == capacity + 1
      modifies this
      ensures ok == granted && len == old(len)
      ensures !ok ==> buffer == null && capacity == old(capacity)
      ensures ok ==> buffer != null && fresh(buffer) && capacity == NewCapacity(n) && buffer.Length == capacity + 1
      ensures ok ==> forall k :: 0 <= k <= capacity ==>
                       buffer[k] == if k <= old(capacity) then old(buffer[k]) else '\0'
    {
      if granted {
        var size := (n + 16) / 16 * 16;
        var b := new char[size];
        forall k | 0 <= k < size {
          b[k] := if k <= capacity then buffer[k] else '\0';
        }
        buffer, capacity := b, size - 1;
      } else {
        buffer := null;
      }
      ok := granted;
    }

    method ReplaceEqual(find: string, rep: string)
      requires Valid() && Plain(find) && Plain(rep) && |find| == |rep| > 0
      modifies buffer
      ensures Valid() && Text() == ReplaceAll(old(Text()), find, rep)
    {
      hide MatchAt, ReplaceAll, FirstMatch, CText, Strstr, Patched;
      ghost var s := Text();
      var r := 0;
      assert s[0..] == s && buffer[..0] == [];
      while true
        invariant r <= len && buffer[r..len] == s[r..] && buffer[len] == '\0'
        invariant buffer[..r] + ReplaceAll(s[r..], find, rep) == ReplaceAll(s, find, rep)
        decreases len - r
      {
        ReplaceTail(s, r, buffer[..], find, rep);
        var found := Strstr(buffer[..], r, find);
        if found.None? {
          break;
        }
        var i := found.value;
        EqualStep(s, buffer[..], r, i, rep, ReplaceAll(s[i + |find|..], find, rep));
        CopyIn(buffer, i, rep);
        r := i + |rep|;
      }
      assert buffer[..len] == buffer[..r] + buffer[r..len];
      ReplacePlain(s, find, rep);
    }

    /** The shrinking loop, from the read position 0 and the write position 0. */
    method Shrink(find: string, rep: string) returns (r: nat, w: nat)
      requires Valid() && Plain(find) && Plain(rep) && |find| > |rep|
      modifies this`len, buffer
      ensures buffer.Length == capacity + 1 && Shrinking(old(Text()), buffer[..], r, w, find, rep)
      ensures Strstr(buffer[..], r, find) == None && len == old(len) + w - r && w <= r <= old(len)
    {
      hide MatchAt, ReplaceAll, FirstMatch, CText, Strstr, Patched, Plain, Shrinking;
      ghost var s := Text();
      r, w := 0, 0;
      ShrinkingStarts(s, buffer[..], find, rep);
      var found := Strstr(buffer[..], r, find);
      while found.Some?
        invariant w <= r <= |s| <= capacity && len == |s| + w - r
        invariant Shrinking(s, buffer[..], r, w, find, rep) && found == Strstr(buffer[..], r, find)
        decreases |s| - r
      {
        var i := found.value;
        MoveDown(buffer, s, r, w, i, find, rep);
        w := w + (i - r) + |rep|;
        r := i + |find|;
        len := len + |rep| - |find|;
        found := Strstr(buffer[..], r, find);
      }
    }

    method ReplaceShorter(find: string, rep: string)
      requires Valid() && Plain(find) && Plain(rep) && |find| > |rep|
      modifies this`len, buffer
      ensures Valid() && Text() == ReplaceAll(old(Text()), find, rep)
    {
      hide MatchAt, ReplaceAll, FirstMatch, CText, Strstr, Patched, Plain, Shrinking;
      ghost var s := Text();
      var r, w := Shrink(find, rep);
      MoveRest(buffer, s, r, w, find, rep);
      ReplacePlain(s, find, rep);
    }

    /** The forward pass of the growing branch. */
    method CountSize(find: string, rep: string) returns (size: nat)
      requires Valid() && Plain(find) && find != "" && |rep| > |find|
      ensures size == |ReplaceAll(Text(), find, rep)|
    {
      hide MatchAt, ReplaceAll, FirstMatch, CText, Strstr, Patched;
      ghost var s := Text();
      var r := 0;
      size := len;
      assert s[0..] == s;
      while true
        invariant r <= len
        invariant size + |ReplaceAll(s[r..], find, rep)| == |ReplaceAll(s, find, rep)| + |s[r..]|
        decreases len - r
      {
        ReplaceTail(s, r, buffer[..], find, rep);
        var found := Strstr(buffer[..], r, find);
        if found.None? {
          break;
        }
        r := found.value + |find|;
        size := size + |rep| - |find|;
      }
    }

    /** One turn of the backward loop: the match at `index` is replaced. */
    method ReplaceOne(index: nat, find: string, rep: string)
      requires Valid() && Plain(rep) && |find| < |rep| && index + |find| <= len && len + |rep| - |find| <= capacity
      modifies this`len, buffer
      ensures Valid() && Text() == old(Text()[..index] + rep + Text()[index + |find|..])
    {
      hide Patched, Plain;
      var b, n, r, diff := buffer, len, index + |find|, |rep| - |find|;
      ghost var v := b[..];
      GrowStep(v, n, index, r, rep);
      GrownPlain(v, n, index, r, rep);
      CopyIn(b, r + diff, b[r..n]);
      len := n + diff;
      b[n + diff] := '\0';
      assert b[..] == Patched(v, r + diff, v[r..n])[n + diff := '\0'];
      CopyIn(b, index, rep);
      assert v[..n][..index] == v[..index] && v[..n][r..] == v[r..n];
    }

    method ReplaceLast(find: string, rep: string)
      requires Valid() && Plain(find) && Plain(rep) && len > 0 && 0 < |find| < |rep|
      requires |Grow(Text(), find, rep)| <= capacity
      modifies this`len, buffer
      ensures Valid() && Text() == Grow(old(Text()), find, rep)
    {
      hide MatchAt, LastMatch, ReplaceBackwards;
      ghost var want := Grow(Text(), find, rep);
      var index := len - 1;
      while index >= 0
        invariant Valid() && index < len && len > 0
        invariant ReplaceBackwards(Text(), index, find, rep) == want
        decreases index
      {
        ghost var t := Text();
        var i := LastIndexOf(find, index);
        if i < 0 {
          BackwardsStops(t, find, rep, index);
          return;
        }
        BackwardsStep(t, index, find, rep, i);
        BackwardsGrows(t[..i] + rep + t[i + |find|..], i - 1, find, rep);
        ReplaceOne(i, find, rep);
        index := i - 1;
      }
      BackwardsEnds(Text(), find, rep, index);
    }

    /** Replaces in place. Growing works in the size counted forward, which must be enough for this text; a refused
        allocation loses the text. */
    method Replace(find: string, rep: string, granted: bool)
      requires Valid() && Plain(find) && Plain(rep)
      requires 0 < |find| < |rep| ==> |Grow(Text(), find, rep)| <= GrowCapacity(Text(), find, rep, capacity)
      modifies this, buffer
      ensures find == "" ==> Valid() && Text() == old(Text())
      ensures 0 < |find| && |find| >= |rep| ==> Valid() && Text() == ReplaceAll(old(Text()), find, rep)
      ensures 0 < |find| < |rep| ==>
                if |ReplaceAll(old(Text()), find, rep)| > old(capacity) && !granted
                then buffer == null && len == old(len)
                else Valid() && Text() == Grow(old(Text()), find, rep)
    {
      hide ReplaceAll, Grow;
      if len == 0 || find == "" {
        EmptyText(find, rep);
        return;
      }
      if |rep| == |find| {
        ReplaceEqual(find, rep);
      } else if |rep| < |find| {
        ReplaceShorter(find, rep);
      } else {
        ReplaceLonger(Text(), find, rep);
        var size := CountSize(find, rep);
        if size == len {
          return;
        }
        if size > capacity {
          ghost var s := Text();
          var ok := ChangeBuffer(size, granted);
          if !ok {
            return;
          }
          assert Text() == s;
        }
        ReplaceLast(find, rep);
      }
    }
  }
}
