/**
 * The audit log: newest entry first, capped at the 100 most recent entries.
 */
module Audit {
  import opened Lists

  const AuditCap: nat := 100

  /** One logged action; the timestamp is the ISO text of the moment it was logged. */
  datatype AuditEntry = AuditEntry(action: string, user: string, timestamp: string, details: string)

  function Min(a: int, b: int): int {
    if a <= b then a else b
  }

  /** The first `n` elements, or all of them when there are fewer. */
  function Take<T>(s: seq<T>, n: nat): (r: seq<T>)
    ensures |r| == Min(n, |s|)
  {
    s[..Min(n, |s|)]
  }

  /** `logAudit`: the entry goes in front, then the log is cut to its first 100 entries. */
  function Recorded(log: seq<AuditEntry>, e: AuditEntry): (r: seq<AuditEntry>)
    ensures |r| == Min(|log| + 1, AuditCap)
    ensures r[0] == e
    ensures r[1..] == log[..Min(|log|, AuditCap - 1)]
  {
    var l := [e] + log;
    if |l| > AuditCap then l[..AuditCap] else l
  }

  /** The log after recording `es` one after another, `es[0]` first. */
  function Replay(log: seq<AuditEntry>, es: seq<AuditEntry>): seq<AuditEntry>
    decreases |es|
  {
    if es == [] then log else Replay(Recorded(log, es[0]), es[1..])
  }

  function Reversed<T>(s: seq<T>): (r: seq<T>)
    ensures |r| == |s|
  {
    if s == [] then [] else Reversed(s[1..]) + [s[0]]
  }

  lemma {:induction false} ReversedAppend<T>(a: seq<T>, b: seq<T>)
    ensures Reversed(a + b) == Reversed(b) + Reversed(a)
  {
    if a == [] {
      assert a + b == b;
    } else {
      ReversedAppend(a[1..], b);
      assert (a + b)[1..] == a[1..] + b;
      assert Reversed(a + b) == Reversed(a[1..] + b) + [a[0]];
      AppendAssociative(Reversed(b), Reversed(a[1..]), [a[0]]);
    }
  }

  /** Cutting `x` before putting `front` ahead of it does not change the first `n`. */
  lemma TakeAfterTake<T>(front: seq<T>, x: seq<T>, n: nat)
    ensures Take(front + Take(x, n), n) == Take(front + x, n)
  {
    var a, b := front + Take(x, n), front + x;
    assert |Take(a, n)| == |Take(b, n)|;
    forall k | 0 <= k < |Take(a, n)| ensures Take(a, n)[k] == Take(b, n)[k] {
      if k >= |front| {
        assert a[k] == x[k - |front|];
      }
    }
  }

  /** Recording is putting the entry in front and keeping the first 100. */
  lemma RecordedIsTake(log: seq<AuditEntry>, e: AuditEntry)
    ensures Recorded(log, e) == Take([e] + log, AuditCap)
  {
  }

  /** After at least one record, the log holds the newest 100 of all entries ever
      recorded after the old ones, newest first. */
  lemma {:induction false} ReplayKeepsNewest(log: seq<AuditEntry>, es: seq<AuditEntry>)
    requires es != []
    ensures Replay(log, es) == Take(Reversed(es) + log, AuditCap)
    decreases |es|
  {
    var first := Recorded(log, es[0]);
    RecordedIsTake(log, es[0]);
    if |es| == 1 {
      assert Reversed(es) == [es[0]];
    } else {
      ReplayKeepsNewest(first, es[1..]);
      TakeAfterTake(Reversed(es[1..]), [es[0]] + log, AuditCap);
      assert Reversed(es) == Reversed(es[1..]) + [es[0]];
      AppendAssociative(Reversed(es[1..]), [es[0]], log);
    }
  }

  /** After 100 or more records the log is exactly the last 100 recorded entries,
      most recent first, whatever it held before. */
  lemma ReplayFullWindow(log: seq<AuditEntry>, es: seq<AuditEntry>)
    requires |es| >= AuditCap
    ensures Replay(log, es) == Reversed(es[|es| - AuditCap..])
  {
    ReplayKeepsNewest(log, es);
    var older, newest := es[..|es| - AuditCap], es[|es| - AuditCap..];
    assert es == older + newest;
    ReversedAppend(older, newest);
    AppendAssociative(Reversed(newest), Reversed(older), log);
    var rest := Reversed(older) + log;
    assert (Reversed(newest) + rest)[..AuditCap] == Reversed(newest);
  }
}
