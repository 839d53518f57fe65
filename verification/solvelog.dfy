/** The solve log: solves newest first, as the `times` array of the hook
    and of the archived single-file timer holds them. */
module SolveLog {

  /** One completed solve. The entry's ISO `date` string is presentation only
      and is not modelled. */
  datatype Solve = Solve(id: int, time: real)

  /** Newest first: index 0 is the most recent solve. */
  type Log = seq<Solve>

  /** Every recorded time is a non-negative duration. */
  ghost predicate ValidLog(log: Log)
  {
    forall i :: 0 <= i < |log| ==> log[i].time >= 0.0
  }

  ghost predicate HasId(log: Log, id: int)
  {
    exists i :: 0 <= i < |log| && log[i].id == id
  }

  /** No two entries share an id, as ids taken from a millisecond clock at
      distinct saves are. */
  ghost predicate UniqueIds(log: Log)
  {
    forall i, j :: 0 <= i < j < |log| ==> log[i].id != log[j].id
  }

  /** The times of the log, in log order (`times.map(t => t.time)`). */
  function Times(log: Log): (r: seq<real>)
    ensures |r| == |log|
    ensures forall i :: 0 <= i < |log| ==> r[i] == log[i].time
  {
    if |log| == 0 then [] else [log[0].time] + Times(log[1..])
  }

  lemma TimesSlice(log: Log, i: nat, j: nat)
    requires i <= j <= |log|
    ensures Times(log[i..j]) == Times(log)[i..j]
  {
  }

  /** The times of a valid log are all non-negative. */
  lemma ValidTimes(log: Log)
    requires ValidLog(log)
    ensures forall x :: x in Times(log) ==> x >= 0.0
  {
    forall x | x in Times(log)
      ensures x >= 0.0
    {
      var i :| 0 <= i < |Times(log)| && Times(log)[i] == x;
    }
  }

  /** A new entry goes to the front of the log (`[newTimeEntry, ...prevTimes]`,
      `times.unshift(timeEntry)`). */
  function Save(log: Log, id: int, time: real): (r: Log)
    ensures |r| == |log| + 1
    ensures r[0] == Solve(id, time) && r[1..] == log
    ensures time >= 0.0 && ValidLog(log) ==> ValidLog(r)
  {
    [Solve(id, time)] + log
  }

  /** `times.filter(time => time.id !== id)`. */
  function Delete(log: Log, id: int): (r: Log)
    ensures forall s :: s in r <==> s in log && s.id != id
    ensures |r| <= |log|
    ensures !HasId(log, id) ==> r == log
    ensures HasId(log, id) ==> |r| < |log|
    ensures ValidLog(log) ==> ValidLog(r)
  {
    if |log| == 0 then []
    else
      var rest := Delete(log[1..], id);
      TailFacts(log, id);
      if log[0].id != id then
        ConsValid(log[0], rest);
        [log[0]] + rest
      else
        rest
  }

  /** What the log's tail inherits from the log. */
  lemma {:induction false} TailFacts(log: Log, id: int)
    requires |log| > 0
    ensures log == [log[0]] + log[1..]
    ensures HasId(log[1..], id) ==> HasId(log, id)
    ensures ValidLog(log) ==> ValidLog(log[1..])
  {
    if HasId(log[1..], id) {
      var i :| 0 <= i < |log[1..]| && log[1..][i].id == id;
      assert log[i + 1].id == id;
    }
    if ValidLog(log) {
      assert forall i :: 0 <= i < |log[1..]| ==> log[1..][i] == log[i + 1];
    }
  }

  /** A valid log with a valid entry in front stays valid. */
  lemma {:induction false} ConsValid(s: Solve, log: Log)
    ensures s.time >= 0.0 && ValidLog(log) ==> ValidLog([s] + log)
  {
    if s.time >= 0.0 && ValidLog(log) {
      assert forall i :: 1 <= i < |log| + 1 ==> ([s] + log)[i] == log[i - 1];
    }
  }

  /** Deletion keeps the surviving entries in order: it distributes over
      concatenation. */
  lemma {:induction false} DeleteConcat(a: Log, b: Log, id: int)
    ensures Delete(a + b, id) == Delete(a, id) + Delete(b, id)
  {
    if |a| == 0 {
      assert a + b == b;
    } else {
      assert (a + b)[1..] == a[1..] + b;
      DeleteConcat(a[1..], b, id);
    }
  }

  /** Deleting twice is deleting once. */
  lemma {:induction false} DeleteIdempotent(log: Log, id: int)
    ensures Delete(Delete(log, id), id) == Delete(log, id)
  {
    var r := Delete(log, id);
    forall i | 0 <= i < |r|
      ensures r[i].id != id
    {
      assert r[i] in r;
    }
  }

  /** Saving a solve under a fresh id and deleting that id restores the log. */
  lemma SaveThenDelete(log: Log, id: int, time: real)
    requires !HasId(log, id)
    ensures Delete(Save(log, id, time), id) == log
  {
    DeleteConcat([Solve(id, time)], log, id);
  }

  /** With unique ids, deleting a present id removes exactly one entry. */
  lemma {:induction false} DeleteRemovesOne(log: Log, id: int)
    requires UniqueIds(log) && HasId(log, id)
    ensures |Delete(log, id)| == |log| - 1
  {
    if log[0].id == id {
      forall j | 0 <= j < |log[1..]|
        ensures log[1..][j].id != id
      {
        assert log[1..][j] == log[j + 1];
      }
    } else {
      var i :| 0 <= i < |log| && log[i].id == id;
      assert log[1..][i - 1].id == id;
      assert UniqueIds(log[1..]) by {
        forall a, b | 0 <= a < b < |log[1..]|
          ensures log[1..][a].id != log[1..][b].id
        {
          assert log[1..][a] == log[a + 1] && log[1..][b] == log[b + 1];
        }
      }
      DeleteRemovesOne(log[1..], id);
    }
  }
}
