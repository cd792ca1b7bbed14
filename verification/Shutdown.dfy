/** Stopping the process: the main thread lowers the flag, unparks and joins, while the
    registry updater loads, refreshes and parks. Memory is sequentially consistent. */
module Shutdown {
  /** The main thread; thread 0 is the updater and thread 1 the server. */
  datatype Main = Serving | Stopping | AtUnpark(thread: nat) | AtJoin(thread: nat) | Finished

  datatype Updater = AtLoad | ToRefresh | Refreshing | ToPark | Exited

  datatype State = State(main: Main, flag: bool, token: bool, updater: Updater, serverRuns: bool)

  const START := State(Serving, true, false, AtLoad, true)

  /** `Wake` is a park that ends by timeout or spuriously; `Park` one that finds the token. */
  datatype Label = MainStep | Load | BeginRefresh | EndRefresh | Park | Wake | ServerExit

  predicate Enabled(s: State, l: Label) {
    match l
    case MainStep =>
      (match s.main
       case AtJoin(thread) => if thread == 0 then s.updater.Exited? else !s.serverRuns
       case Finished => false
       case _ => true)
    case Load => s.updater.AtLoad?
    case BeginRefresh => s.updater.ToRefresh?
    case EndRefresh => s.updater.Refreshing?
    case Park => s.updater.ToPark? && s.token
    case Wake => s.updater.ToPark?
    case ServerExit => s.serverRuns && !s.main.Serving?
  }

  /** SIGINT reaches the server first, then the flag falls, then each thread is unparked and joined. */
  function StepMain(s: State): State {
    match s.main
    case Serving => s.(main := Stopping)
    case Stopping => s.(main := AtUnpark(0), flag := false)
    case AtUnpark(thread) => s.(main := AtJoin(thread), token := s.token || thread == 0)
    case AtJoin(thread) => s.(main := if thread == 0 then AtUnpark(1) else Finished)
    case Finished => s
  }

  function Step(s: State, l: Label): State {
    if !Enabled(s, l) then s
    else
      match l
      case MainStep => StepMain(s)
      case Load => s.(updater := if s.flag then ToRefresh else Exited)
      case BeginRefresh => s.(updater := Refreshing)
      case EndRefresh => s.(updater := ToPark)
      case Park => s.(updater := AtLoad, token := false)
      case Wake => s.(updater := AtLoad, token := false)
      case ServerExit => s.(serverRuns := false)
  }

  function Exec(s: State, run: seq<Label>): State {
    if run == [] then s else Step(Exec(s, run[..|run| - 1]), run[|run| - 1])
  }

  /** How often a label took effect in a run. */
  function Count(s: State, run: seq<Label>, which: Label -> bool): nat {
    if run == [] then 0
    else
      var init, l := run[..|run| - 1], run[|run| - 1];
      Count(s, init, which) + if which(l) && Enabled(Exec(s, init), l) then 1 else 0
  }

  /** After the flag is down, a refresh starts only if the updater had already read the flag. */
  lemma {:induction false} AtMostOneMoreRefresh(s: State, run: seq<Label>)
    requires !s.flag
    ensures var t := Exec(s, run);
            && !t.flag
            && Count(s, run, (l: Label) => l.BeginRefresh?) + (if t.updater.ToRefresh? then 1 else 0)
                == (if s.updater.ToRefresh? then 1 else 0)
  {
    if run != [] {
      AtMostOneMoreRefresh(s, run[..|run| - 1]);
    }
  }

  /** What every reachable state keeps: the flag is down once main has passed the store, an
      unpark is remembered until the updater is past its park, and a join is earned. */
  ghost predicate Inv(s: State) {
    && (s.main.AtUnpark? || s.main.AtJoin? ==> s.main.thread <= 1)
    && (s.flag <==> s.main.Serving? || s.main.Stopping?)
    && (s.updater.Exited? ==> !s.flag)
    && (s.main == AtJoin(0) && !s.updater.AtLoad? && !s.updater.Exited? ==> s.token)
    && (s.main == AtUnpark(1) || s.main == AtJoin(1) || s.main.Finished? ==> s.updater.Exited?)
    && (s.main.Finished? ==> !s.serverRuns)
  }

  lemma {:induction false} ReachableInv(run: seq<Label>)
    ensures Inv(Exec(START, run))
  {
    if run != [] {
      ReachableInv(run[..|run| - 1]);
    }
  }

  /** The unpark is not lost: with the flag down and main not yet finished, some thread can
      move without waiting for a timeout. */
  lemma NeverWaitsForTimeout(run: seq<Label>)
    requires !Exec(START, run).flag && !Exec(START, run).main.Finished?
    ensures exists l :: l != Wake && Enabled(Exec(START, run), l)
  {
    ReachableInv(run);
    var s := Exec(START, run);
    if Enabled(s, MainStep) {
    } else if s.main == AtJoin(1) {
      assert Enabled(s, ServerExit);
    } else {
      var l := match s.updater
        case AtLoad => Load
        case ToRefresh => BeginRefresh
        case Refreshing => EndRefresh
        case _ => Park;
      assert Enabled(s, l);
    }
  }

  /** Steps left once the flag is down. */
  function Rank(s: State): nat {
    (match s.main
     case Serving => 6
     case Stopping => 5
     case AtUnpark(thread) => if thread == 0 then 4 else 2
     case AtJoin(thread) => if thread == 0 then 3 else 1
     case Finished => 0)
    + (match s.updater
       case ToRefresh => 4
       case Refreshing => 3
       case ToPark => 2
       case AtLoad => 1
       case Exited => 0)
    + (if s.serverRuns then 1 else 0)
  }

  /** Only so many steps can follow, in any order. */
  lemma {:induction false} StepsAreBounded(s: State, run: seq<Label>)
    requires Inv(s) && !s.flag
    ensures var t := Exec(s, run);
            && Inv(t) && !t.flag
            && Count(s, run, (l: Label) => true) + Rank(t) <= Rank(s)
  {
    if run != [] {
      StepsAreBounded(s, run[..|run| - 1]);
    }
  }

  /** Every run that goes on after the store until nothing but a timeout is left ends with
      both threads gone and both joins returned, within nine steps. */
  lemma ShutdownCompletes(before: seq<Label>, after: seq<Label>)
    requires var s := Exec(START, before); !s.flag && s.main == AtUnpark(0)
    requires forall l :: Enabled(Exec(Exec(START, before), after), l) ==> l == Wake
    ensures var t := Exec(Exec(START, before), after);
            t.main.Finished? && t.updater.Exited? && !t.serverRuns
    ensures Count(Exec(START, before), after, (l: Label) => true) <= 9
  {
    var s := Exec(START, before);
    ReachableInv(before);
    StepsAreBounded(s, after);
    var t := Exec(s, after);
    ExecConcat(START, before, after);
    if !t.main.Finished? {
      NeverWaitsForTimeout(before + after);
    }
  }

  lemma {:induction false} ExecConcat(s: State, a: seq<Label>, b: seq<Label>)
    ensures Exec(s, a + b) == Exec(Exec(s, a), b)
  {
    if b == [] {
      assert a + b == a;
    } else {
      ExecConcat(s, a, b[..|b| - 1]);
      assert (a + b)[..|a + b| - 1] == a + b[..|b| - 1];
    }
  }
}
