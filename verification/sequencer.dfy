/**
 The deployment phase of the script: stop every configured service, copy
 every staged file to its target, start the services again, delete the
 temporary files, and, when there are services, wait for them to settle and
 show their status. The commands run without `check`, so their exit codes
 never change what happens next.
 */
module Sequencer {
  import opened Records

  function Stops(services: seq<string>): seq<Action> {
    seq(|services|, i requires 0 <= i < |services| => StopService(services[i]))
  }

  function Copies(staged: seq<Staged>): seq<Action> {
    seq(|staged|, k requires 0 <= k < |staged| => Copy(staged[k].temp, staged[k].target))
  }

  function Starts(services: seq<string>): seq<Action> {
    seq(|services|, i requires 0 <= i < |services| => StartService(services[i]))
  }

  function Unlinks(staged: seq<Staged>): seq<Action> {
    seq(|staged|, k requires 0 <= k < |staged| => Unlink(staged[k].temp))
  }

  function Statuses(services: seq<string>): seq<Action> {
    seq(|services|, i requires 0 <= i < |services| => ServiceStatus(services[i]))
  }

  /** The status report runs only when some service is configured. */
  function StatusReport(services: seq<string>): seq<Action> {
    if |services| == 0 then [] else [Sleep(SettleMillis)] + Statuses(services)
  }

  /** The actions of the deployment phase, in order. */
  function DeployTrace(staged: seq<Staged>, services: seq<string>): (t: seq<Action>)
    ensures |t| == 2 * |services| + 2 * |staged| + (if |services| == 0 then 0 else 1 + |services|)
  {
    Stops(services) + Copies(staged) + Starts(services) + Unlinks(staged) + StatusReport(services)
  }

  /** The phase an action of the deployment belongs to. */
  function Phase(a: Action): nat {
    match a
    case StopService(_) => 0
    case Copy(_, _) => 1
    case StartService(_) => 2
    case Unlink(_) => 3
    case Sleep(_) => 4
    case ServiceStatus(_) => 5
    case _ => 6
  }

  /** The actions of phase `n`, in order. */
  function OfPhase(t: seq<Action>, n: nat): (r: seq<Action>)
    ensures |r| <= |t|
  {
    if |t| == 0 then []
    else (if Phase(t[0]) == n then [t[0]] else []) + OfPhase(t[1..], n)
  }

  lemma {:induction false} OfPhaseConcat(a: seq<Action>, b: seq<Action>, n: nat)
    ensures OfPhase(a + b, n) == OfPhase(a, n) + OfPhase(b, n)
    decreases |a|
  {
    if |a| > 0 {
      assert (a + b)[1..] == a[1..] + b;
      OfPhaseConcat(a[1..], b, n);
    } else {
      assert a + b == b;
    }
  }

  lemma {:induction false} OfPhaseUniform(a: seq<Action>, m: nat, n: nat)
    requires forall i :: 0 <= i < |a| ==> Phase(a[i]) == m
    ensures OfPhase(a, n) == if m == n then a else []
    decreases |a|
  {
    if |a| > 0 {
      OfPhaseUniform(a[1..], m, n);
      assert a == [a[0]] + a[1..];
    }
  }

  /** Phases never interleave: every stop comes before every copy, every copy
      before every start, every start before every unlink, and the status
      report comes last. */
  lemma PhasesInOrder(staged: seq<Staged>, services: seq<string>)
    ensures var t := DeployTrace(staged, services);
      forall i, j :: 0 <= i < j < |t| ==> Phase(t[i]) <= Phase(t[j])
  {
    var t := DeployTrace(staged, services);
    var s, c, st, u := |services|, |staged|, |services|, |staged|;
    forall i | 0 <= i < |t|
      ensures Phase(t[i]) == (if i < s then 0 else if i < s + c then 1 else if i < s + c + st then 2
                               else if i < s + c + st + u then 3 else if i == s + c + st + u then 4 else 5)
    {
    }
  }

  /** The deployment phase does nothing but stop, copy, start, delete,
      sleep and report status. */
  lemma DeployTraceKinds(staged: seq<Staged>, services: seq<string>)
    ensures var t := DeployTrace(staged, services);
      forall i :: 0 <= i < |t| ==> Phase(t[i]) < 6
  {
    PhasesInOrder(staged, services);
    var t := DeployTrace(staged, services);
    if |t| > 0 {
      var last := |t| - 1;
      assert Phase(t[last]) <= 5;
    }
  }

  lemma OfPhaseOfParts(staged: seq<Staged>, services: seq<string>, n: nat)
    ensures OfPhase(DeployTrace(staged, services), n)
      == OfPhase(Stops(services), n) + OfPhase(Copies(staged), n) + OfPhase(Starts(services), n)
         + OfPhase(Unlinks(staged), n) + OfPhase(StatusReport(services), n)
  {
    var a, b, c, d, e := Stops(services), Copies(staged), Starts(services), Unlinks(staged), StatusReport(services);
    OfPhaseConcat(a + b + c + d, e, n);
    OfPhaseConcat(a + b + c, d, n);
    OfPhaseConcat(a + b, c, n);
    OfPhaseConcat(a, b, n);
  }

  lemma OfPhaseOfStatusReport(services: seq<string>, n: nat)
    ensures OfPhase(StatusReport(services), n) ==
      if |services| == 0 then []
      else if n == 4 then [Sleep(SettleMillis)]
      else if n == 5 then Statuses(services)
      else []
  {
    if |services| > 0 {
      var st := Statuses(services);
      OfPhaseConcat([Sleep(SettleMillis)], st, n);
      OfPhaseUniform([Sleep(SettleMillis)], 4, n);
      OfPhaseUniform(st, 5, n);
    }
  }

  lemma PhaseOfTrace(staged: seq<Staged>, services: seq<string>, n: nat)
    ensures OfPhase(DeployTrace(staged, services), n) ==
      if n == 0 then Stops(services)
      else if n == 1 then Copies(staged)
      else if n == 2 then Starts(services)
      else if n == 3 then Unlinks(staged)
      else if n == 4 then (if |services| == 0 then [] else [Sleep(SettleMillis)])
      else if n == 5 then (if |services| == 0 then [] else Statuses(services))
      else []
  {
    var t := DeployTrace(staged, services);
    var x0, x1, x2, x3, x4 := OfPhase(Stops(services), n), OfPhase(Copies(staged), n), OfPhase(Starts(services), n),
      OfPhase(Unlinks(staged), n), OfPhase(StatusReport(services), n);
    OfPhaseOfParts(staged, services, n);
    assert OfPhase(t, n) == x0 + x1 + x2 + x3 + x4;
    OfPhaseOfStatusReport(services, n);
    OfPhaseOfStops(services, n);
    OfPhaseOfCopies(staged, n);
    OfPhaseOfStarts(services, n);
    OfPhaseOfUnlinks(staged, n);
    FiveParts(x0, x1, x2, x3, x4, n);
  }

  /** Five parts of which at most the one numbered `n` is non-empty concatenate to that part.
      Proof plumbing only, kept separate so that `PhaseOfTrace` stays small. */
  lemma FiveParts(x0: seq<Action>, x1: seq<Action>, x2: seq<Action>, x3: seq<Action>, x4: seq<Action>, n: nat)
    requires n != 0 ==> x0 == []
    requires n != 1 ==> x1 == []
    requires n != 2 ==> x2 == []
    requires n != 3 ==> x3 == []
    requires n < 4 || 5 < n ==> x4 == []
    ensures x0 + x1 + x2 + x3 + x4 == if n == 0 then x0 else if n == 1 then x1 else if n == 2 then x2 else if n == 3 then x3 else x4
  {
  }

  lemma OfPhaseOfStops(services: seq<string>, n: nat)
    ensures OfPhase(Stops(services), n) == if n == 0 then Stops(services) else []
  {
    OfPhaseUniform(Stops(services), 0, n);
  }

  lemma OfPhaseOfCopies(staged: seq<Staged>, n: nat)
    ensures OfPhase(Copies(staged), n) == if n == 1 then Copies(staged) else []
  {
    OfPhaseUniform(Copies(staged), 1, n);
  }

  lemma OfPhaseOfStarts(services: seq<string>, n: nat)
    ensures OfPhase(Starts(services), n) == if n == 2 then Starts(services) else []
  {
    OfPhaseUniform(Starts(services), 2, n);
  }

  lemma OfPhaseOfUnlinks(staged: seq<Staged>, n: nat)
    ensures OfPhase(Unlinks(staged), n) == if n == 3 then Unlinks(staged) else []
  {
    OfPhaseUniform(Unlinks(staged), 3, n);
  }

  /** Each phase performs its operation once per item, in configuration or
      staging order: taken together with `PhasesInOrder` this fixes the whole
      deployment trace. */
  lemma PhaseContents(staged: seq<Staged>, services: seq<string>)
    ensures var t := DeployTrace(staged, services);
      && OfPhase(t, 0) == Stops(services)
      && OfPhase(t, 1) == Copies(staged)
      && OfPhase(t, 2) == Starts(services)
      && OfPhase(t, 3) == Unlinks(staged)
      && OfPhase(t, 4) == (if |services| == 0 then [] else [Sleep(SettleMillis)])
      && OfPhase(t, 5) == (if |services| == 0 then [] else Statuses(services))
  {
    PhaseOfTrace(staged, services, 0);
    PhaseOfTrace(staged, services, 1);
    PhaseOfTrace(staged, services, 2);
    PhaseOfTrace(staged, services, 3);
    PhaseOfTrace(staged, services, 4);
    PhaseOfTrace(staged, services, 5);
  }

  /** Temporary file names are pairwise distinct. */
  predicate DistinctTemps(staged: seq<Staged>) {
    forall k, l :: 0 <= k < l < |staged| ==> staged[k].temp != staged[l].temp
  }

  lemma {:induction false} UnlinkCount(staged: seq<Staged>, x: TempId)
    requires DistinctTemps(staged)
    ensures multiset(Unlinks(staged))[Unlink(x)] == if exists k :: 0 <= k < |staged| && staged[k].temp == x then 1 else 0
    decreases |staged|
  {
    if |staged| > 0 {
      var rest := staged[1..];
      UnlinkCount(rest, x);
      assert Unlinks(staged) == [Unlink(staged[0].temp)] + Unlinks(rest);
      if staged[0].temp == x {
        assert !exists k :: 0 <= k < |rest| && rest[k].temp == x by {
          forall k | 0 <= k < |rest|
            ensures rest[k].temp != x
          {
            assert rest[k] == staged[k + 1];
          }
        }
      } else {
        if exists k :: 0 <= k < |staged| && staged[k].temp == x {
          var k :| 0 <= k < |staged| && staged[k].temp == x;
          assert rest[k - 1] == staged[k];
        }
        if exists k :: 0 <= k < |rest| && rest[k].temp == x {
          var k :| 0 <= k < |rest| && rest[k].temp == x;
          assert staged[k + 1] == rest[k];
        }
      }
    }
  }

  /** With distinct temporary names every staged file is deleted exactly
      once, and nothing else is deleted. */
  lemma UnlinkedExactlyOnce(staged: seq<Staged>, services: seq<string>, x: TempId)
    requires DistinctTemps(staged)
    ensures multiset(DeployTrace(staged, services))[Unlink(x)]
      == if exists k :: 0 <= k < |staged| && staged[k].temp == x then 1 else 0
  {
    var a, b, c, d, e := Stops(services), Copies(staged), Starts(services), Unlinks(staged), StatusReport(services);
    UnlinkCount(staged, x);
    assert Unlink(x) !in a && Unlink(x) !in b && Unlink(x) !in c && Unlink(x) !in e;
    assert multiset(a + b + c + d + e) == multiset(a) + multiset(b) + multiset(c) + multiset(d) + multiset(e);
  }

  /** After index `from`, `t` copies temporary file `temp`, then starts
      every service, then deletes the file. */
  ghost predicate CopiedThenDeleted(t: seq<Action>, from: int, temp: TempId, services: seq<string>) {
    exists j, k :: 0 <= j && from < j < k < |t|
      && t[j].Copy? && t[j].temp == temp
      && t[k] == Unlink(temp)
      && forall m :: 0 <= m < |services| ==> StartService(services[m]) in t[j + 1..k]
  }

  /** Every staged file is copied before it is deleted, and every service is
      started in between. */
  lemma CopiedAndStartedBeforeUnlink(staged: seq<Staged>, services: seq<string>, k: nat)
    requires k < |staged|
    ensures CopiedThenDeleted(DeployTrace(staged, services), -1, staged[k].temp, services)
  {
    var t := DeployTrace(staged, services);
    var i := |services| + k;
    var j := 2 * |services| + |staged| + k;
    assert t[i] == Copy(staged[k].temp, staged[k].target);
    assert t[j] == Unlink(staged[k].temp);
    forall m | 0 <= m < |services|
      ensures StartService(services[m]) in t[i + 1..j]
    {
      assert t[i + 1..j][|staged| - k + m - 1] == t[|services| + |staged| + m];
    }
  }

  /** The settle delay and status report happen exactly when there are
      services; without services the phase is copy then delete, nothing else. */
  lemma StatusReportIffServices(staged: seq<Staged>, services: seq<string>)
    ensures var t := DeployTrace(staged, services);
      && ((exists i :: 0 <= i < |t| && t[i].Sleep?) <==> |services| > 0)
      && ((exists i :: 0 <= i < |t| && t[i].ServiceStatus?) <==> |services| > 0)
      && (|services| == 0 ==> t == Copies(staged) + Unlinks(staged))
  {
    var t := DeployTrace(staged, services);
    if |services| > 0 {
      assert t[2 * |services| + 2 * |staged|] == Sleep(SettleMillis);
      assert t[2 * |services| + 2 * |staged| + 1] == ServiceStatus(services[0]);
    } else {
      assert Stops(services) == [] && Starts(services) == [];
      assert t == Copies(staged) + Unlinks(staged);
    }
  }
}
