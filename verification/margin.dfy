/**
 The lead computation at the end of gmaFetch (main.go): one pass over every
 candidate of every contest in the results feed, in feed order, remembering the
 tracked candidate's vote count and the best vote count of everybody else. The
 lead is the difference of the two.

 TargetCount and BestOpponent are the specification of the two accumulators;
 ComputeLead is the loop itself, proved against them; the lemmas say what the
 two accumulators mean.
 */
module Margin {

  /** One candidate row of a contest in the results feed (the party is not used). */
  datatype Candidate = Candidate(name: string, voteCount: int)

  /** The one candidate whose lead is tracked, matched by exact name. */
  const Target: string := "ROBREDO, LENI (IND)"

  /** Every candidate of every contest, contest after contest, each in feed order. */
  function Flatten(contests: seq<seq<Candidate>>): seq<Candidate>
  {
    if contests == [] then []
    else Flatten(contests[..|contests| - 1]) + contests[|contests| - 1]
  }

  /**
   The value of `leni` after visiting `s`: the vote count of the last target
   row, or 0 when there is none. It is always 0 or the count of a target row.
   */
  function TargetCount(s: seq<Candidate>): (r: int)
    ensures r == 0 || exists c :: c in s && c.name == Target && c.voteCount == r
  {
    if s == [] then 0
    else if s[|s| - 1].name == Target then s[|s| - 1].voteCount
    else TargetCount(s[..|s| - 1])
  }

  /**
   The value of `opposer` after visiting `s`: it starts at 0, target rows are
   skipped, and every other row replaces it when its count is strictly larger.
   So it never goes below its starting value 0.
   */
  function BestOpponent(s: seq<Candidate>): (r: int)
    ensures r >= 0
  {
    if s == [] then 0
    else
      var best := BestOpponent(s[..|s| - 1]);
      var c := s[|s| - 1];
      if c.name == Target then best
      else if c.voteCount > best then c.voteCount
      else best
  }

  /**
   The lead that gmaFetch stores: target count minus best opponent count. It
   never exceeds the target's own count, because the opponent count is not
   negative.
   */
  function Lead(contests: seq<seq<Candidate>>): (lead: int)
    ensures lead <= TargetCount(Flatten(contests))
  {
    TargetCount(Flatten(contests)) - BestOpponent(Flatten(contests))
  }

  /** The nested loops of gmaFetch over contests and their candidates. */
  method ComputeLead(contests: seq<seq<Candidate>>) returns (lead: int)
    ensures lead == Lead(contests)
  {
    var leni := 0;
    var opposer := 0;
    var i := 0;
    while i < |contests|
      invariant 0 <= i <= |contests|
      invariant leni == TargetCount(Flatten(contests[..i]))
      invariant opposer == BestOpponent(Flatten(contests[..i]))
    {
      var candidates := contests[i];
      ghost var seen := Flatten(contests[..i]);
      var j := 0;
      assert seen + candidates[..j] == seen;
      while j < |candidates|
        invariant 0 <= j <= |candidates|
        invariant leni == TargetCount(seen + candidates[..j])
        invariant opposer == BestOpponent(seen + candidates[..j])
      {
        var c := candidates[j];
        VisitOne(seen + candidates[..j], c);
        assert seen + candidates[..j + 1] == seen + candidates[..j] + [c];
        if c.name == Target {
          leni := c.voteCount;
        } else if c.voteCount > opposer {
          opposer := c.voteCount;
        }
        j := j + 1;
      }
      assert candidates[..j] == candidates;
      FlattenNext(contests, i);
      i := i + 1;
    }
    assert contests[..i] == contests;
    lead := leni - opposer;
  }

  /** What visiting one more row does to the two accumulators. */
  lemma VisitOne(s: seq<Candidate>, c: Candidate)
    ensures TargetCount(s + [c]) == if c.name == Target then c.voteCount else TargetCount(s)
    ensures BestOpponent(s + [c]) == if c.name == Target || c.voteCount <= BestOpponent(s)
                                     then BestOpponent(s) else c.voteCount
  {
  }

  /** Flattening one more contest appends its candidates. */
  lemma FlattenNext(contests: seq<seq<Candidate>>, i: int)
    requires 0 <= i < |contests|
    ensures Flatten(contests[..i + 1]) == Flatten(contests[..i]) + contests[i]
  {
    assert contests[..i + 1][..i] == contests[..i];
  }

  /** The candidates of a contest are exactly the rows the flattened feed holds. */
  lemma {:induction false} FlattenMembers(contests: seq<seq<Candidate>>, c: Candidate)
    ensures c in Flatten(contests) <==> exists i :: 0 <= i < |contests| && c in contests[i]
  {
    if contests != [] {
      var init := contests[..|contests| - 1];
      FlattenMembers(init, c);
      if c in Flatten(init) {
        var i :| 0 <= i < |init| && c in init[i];
        assert contests[i] == init[i];
      }
      if i :| 0 <= i < |contests| && c in contests[i] {
        if i < |contests| - 1 {
          assert init[i] == contests[i];
        }
      }
    }
  }

  /** Every non-target row has a count no larger than the best opponent count. */
  lemma {:induction false} BestOpponentIsUpperBound(s: seq<Candidate>)
    ensures forall c :: c in s && c.name != Target ==> c.voteCount <= BestOpponent(s)
  {
    if s != [] {
      var init := s[..|s| - 1];
      BestOpponentIsUpperBound(init);
      assert s == init + [s[|s| - 1]];
    }
  }

  /** The best opponent count is still 0 or else the count of some non-target row. */
  lemma {:induction false} BestOpponentIsAttained(s: seq<Candidate>)
    ensures BestOpponent(s) == 0
         || exists c :: c in s && c.name != Target && c.voteCount == BestOpponent(s)
  {
    if s != [] {
      var init := s[..|s| - 1];
      BestOpponentIsAttained(init);
      assert s == init + [s[|s| - 1]];
    }
  }

  /**
   BestOpponent is the maximum of 0 and the non-target counts: any value that
   is not negative, bounds every non-target count and is 0 or attained is
   BestOpponent.
   */
  lemma BestOpponentIsMaxOfZeroAndOthers(s: seq<Candidate>, m: int)
    requires m >= 0
    requires forall c :: c in s && c.name != Target ==> c.voteCount <= m
    requires m == 0 || exists c :: c in s && c.name != Target && c.voteCount == m
    ensures m == BestOpponent(s)
  {
    BestOpponentIsUpperBound(s);
    BestOpponentIsAttained(s);
  }

  /** A target row anywhere in the feed leaves the best opponent count unchanged. */
  lemma {:induction false} BestOpponentIgnoresTarget(a: seq<Candidate>, c: Candidate, b: seq<Candidate>)
    requires c.name == Target
    ensures BestOpponent(a + [c] + b) == BestOpponent(a + b)
  {
    if b == [] {
      assert a + [c] + b == a + [c] && (a + [c])[..|a|] == a;
      assert a + b == a;
    } else {
      var b' := b[..|b| - 1];
      BestOpponentIgnoresTarget(a, c, b');
      assert (a + [c] + b)[..|a + [c] + b| - 1] == a + [c] + b';
      assert (a + b)[..|a + b| - 1] == a + b';
    }
  }

  /** A non-target row anywhere in the feed leaves the tracked count unchanged. */
  lemma {:induction false} TargetCountIgnoresOthers(a: seq<Candidate>, c: Candidate, b: seq<Candidate>)
    requires c.name != Target
    ensures TargetCount(a + [c] + b) == TargetCount(a + b)
  {
    if b == [] {
      assert a + [c] + b == a + [c] && (a + [c])[..|a|] == a;
      assert a + b == a;
    } else {
      var b' := b[..|b| - 1];
      TargetCountIgnoresOthers(a, c, b');
      assert (a + [c] + b)[..|a + [c] + b| - 1] == a + [c] + b';
      assert (a + b)[..|a + b| - 1] == a + b';
    }
  }

  /** Without any target row the tracked count keeps its starting value 0. */
  lemma {:induction false} TargetCountAbsent(s: seq<Candidate>)
    requires forall c :: c in s ==> c.name != Target
    ensures TargetCount(s) == 0
  {
    if s != [] {
      TargetCountAbsent(s[..|s| - 1]);
    }
  }

  /** The tracked count is the count of the last target row. */
  lemma {:induction false} TargetCountIsLast(s: seq<Candidate>, k: int)
    requires 0 <= k < |s| && s[k].name == Target
    requires forall j :: k < j < |s| ==> s[j].name != Target
    ensures TargetCount(s) == s[k].voteCount
  {
    if k < |s| - 1 {
      TargetCountIsLast(s[..|s| - 1], k);
    }
  }

  /** In terms of contests: every non-target candidate is covered by the best opponent count. */
  lemma OpponentCoversEveryContest(contests: seq<seq<Candidate>>)
    ensures forall i, j :: 0 <= i < |contests| && 0 <= j < |contests[i]| && contests[i][j].name != Target
                           ==> contests[i][j].voteCount <= BestOpponent(Flatten(contests))
  {
    forall i, j | 0 <= i < |contests| && 0 <= j < |contests[i]| && contests[i][j].name != Target
      ensures contests[i][j].voteCount <= BestOpponent(Flatten(contests))
    {
      FlattenMembers(contests, contests[i][j]);
      BestOpponentIsUpperBound(Flatten(contests));
    }
  }

  /**
   When no contest lists the target, the lead is minus the best opponent count,
   so it is never positive.
   */
  lemma LeadWithoutTarget(contests: seq<seq<Candidate>>)
    requires forall i, j :: 0 <= i < |contests| && 0 <= j < |contests[i]| ==> contests[i][j].name != Target
    ensures Lead(contests) == -BestOpponent(Flatten(contests)) <= 0
  {
    forall c | c in Flatten(contests) ensures c.name != Target {
      FlattenMembers(contests, c);
    }
    TargetCountAbsent(Flatten(contests));
  }
}
