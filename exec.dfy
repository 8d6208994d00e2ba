/** `RegExp.prototype.exec` as main.ts drives it, for any regular expression
    given as a matcher: the function that says, for each start position,
    whether and how the expression matches when started exactly there. */
module RegExpExec {
  import opened Text

  /** A successful `exec`: where the match starts (`match.index`), where it
      ends (the `lastIndex` the next `exec` starts from) and its capture
      groups in order. */
  datatype Match = Match(index: nat, end: nat, groups: seq<string>)

  type Matcher = nat -> Option<Match>

  /** A matcher for a string of length `n`: a match found at `p` starts at
      `p`, is not empty and ends within the string. */
  ghost predicate WellBehaved(at: Matcher, n: nat) {
    forall p: nat :: at(p).Some? ==> at(p).value.index == p && p < at(p).value.end <= n
  }

  /** Every match `at` makes carries `k` capture groups. */
  ghost predicate GroupCount(at: Matcher, k: nat) {
    forall p: nat :: at(p).Some? ==> |at(p).value.groups| == k
  }

  /** No match starts anywhere in `[lo, hi)`. */
  ghost predicate NoMatchIn(at: Matcher, lo: nat, hi: nat) {
    forall q: nat :: lo <= q < hi ==> at(q).None?
  }

  /** `re.exec(s)` with `re.lastIndex == lastIndex` on a string of length
      `n`: the match that starts first at or after `lastIndex`, or `null`. */
  function Exec(at: Matcher, n: nat, lastIndex: nat): (r: Option<Match>)
    requires WellBehaved(at, n)
    ensures r.Some? ==> lastIndex <= r.value.index < r.value.end <= n && at(r.value.index) == r
    ensures r.Some? ==> NoMatchIn(at, lastIndex, r.value.index)
    ensures r.None? ==> NoMatchIn(at, lastIndex, n + 1)
    decreases n + 1 - lastIndex
  {
    if lastIndex > n then None
    else if at(lastIndex).Some? then at(lastIndex)
    else Exec(at, n, lastIndex + 1)
  }

  /** The matches that `while ((match = re.exec(s)) !== null)` visits when
      `re.lastIndex` starts at `lastIndex`: the first is what `exec` returns
      from `lastIndex`, each next one is what it returns from the end of the
      one before, and the loop stops when `exec` finds nothing. Each visited
      match is one the expression makes at its own index, and the matches
      come in order without overlapping. */
  function ExecAll(at: Matcher, n: nat, lastIndex: nat): (ms: seq<Match>)
    requires WellBehaved(at, n)
    ensures ms == [] <==> Exec(at, n, lastIndex).None?
    ensures forall i :: 0 <= i < |ms| ==> lastIndex <= ms[i].index < ms[i].end <= n
    ensures forall i :: 0 <= i < |ms| ==> at(ms[i].index) == Some(ms[i])
    ensures forall i, j :: 0 <= i < j < |ms| ==> ms[i].end <= ms[j].index
    decreases n + 1 - lastIndex
  {
    match Exec(at, n, lastIndex)
    case None => []
    case Some(m) => [m] + ExecAll(at, n, m.end)
  }

  /** `match.index` of each match, in order. */
  function Indexes(ms: seq<Match>): (r: seq<nat>)
    ensures |r| == |ms| && forall i :: 0 <= i < |ms| ==> r[i] == ms[i].index
  {
    seq(|ms|, i requires 0 <= i < |ms| => ms[i].index)
  }

  /** Some match of `ms` starts at `q` or covers it. */
  predicate StartsAtOrInside(ms: seq<Match>, q: nat) {
    || (exists i :: 0 <= i < |ms| && ms[i].index == q)
    || (exists i :: 0 <= i < |ms| && ms[i].index < q < ms[i].end)
  }

  lemma IndexesCons(m: Match, rest: seq<Match>)
    ensures Indexes([m] + rest) == [m.index] + Indexes(rest)
  {
    var l, r := Indexes([m] + rest), [m.index] + Indexes(rest);
    forall i | 0 <= i < |l| ensures l[i] == r[i] {
      if i > 0 {
        assert ([m] + rest)[i] == rest[i - 1];
      }
    }
  }

  /** The exec loop misses a match only when that match starts strictly
      inside one it has already taken. */
  lemma {:induction false} ExecAllSkipsOnlyInside(at: Matcher, n: nat, lastIndex: nat, q: nat)
    requires WellBehaved(at, n)
    requires lastIndex <= q && at(q).Some?
    ensures StartsAtOrInside(ExecAll(at, n, lastIndex), q)
    decreases n + 1 - lastIndex
  {
    assert q < at(q).value.end <= n;
    var e := Exec(at, n, lastIndex);
    assert e.None? ==> at(q).None?;
    var m := e.value;
    var rest := ExecAll(at, n, m.end);
    var ms := ExecAll(at, n, lastIndex);
    assert ms == [m] + rest;
    if q == m.index {
      assert ms[0].index == q;
    } else if q < m.end {
      assert ms[0].index < q < ms[0].end;
    } else {
      ExecAllSkipsOnlyInside(at, n, m.end, q);
      if i :| 0 <= i < |rest| && rest[i].index == q {
        assert ms[i + 1] == rest[i];
        } else {
        var i :| 0 <= i < |rest| && rest[i].index < q < rest[i].end;
        assert ms[i + 1] == rest[i];
      }
    }
  }

  /** The loop `while ((match = re.exec(s)) !== null) indexes.push(match.index)`;
      `lastIndex` is the expression object's own `lastIndex`, which `exec`
      reads and advances. The array it fills is the start of every match
      the exec loop visits, in order. */
  method CollectIndexes(at: Matcher, n: nat) returns (indexes: seq<nat>)
    requires WellBehaved(at, n)
    ensures indexes == Indexes(ExecAll(at, n, 0))
  {
    indexes := [];
    var lastIndex := 0;
    var hit := Exec(at, n, lastIndex);
    while hit.Some?
      invariant hit == Exec(at, n, lastIndex)
      invariant indexes + Indexes(ExecAll(at, n, lastIndex)) == Indexes(ExecAll(at, n, 0))
      decreases n + 1 - lastIndex
    {
      IndexesCons(hit.value, ExecAll(at, n, hit.value.end));
      indexes := indexes + [hit.value.index];
      lastIndex := hit.value.end;
      hit := Exec(at, n, lastIndex);
    }
  }
}
