/** Device registration: any number of requests read the table, choose an id and write it
    back, step by step and in any order, with no lock between the read and the write. */
module Registration {
  import opened Wrappers
  import opened Text
  import opened Uuid
  import opened IfaMatching

  datatype Input = Input(appId: Str, ifa: Option<Str>, trackingEnabled: bool)

  function KeyFor(input: Input): Option<Key> {
    KeyOf(input.appId, input.ifa, input.trackingEnabled)
  }

  /** Before the read; between read and write; after the write. */
  datatype Phase = Waiting | Holding(id: Str) | Done(id: Str)

  datatype Request = Request(input: Input, phase: Phase)

  datatype State = State(table: Table, requests: map<nat, Request>)

  /** The steps; `generated` is the id a request makes up when its read finds none. */
  datatype Label =
    | Begin(r: nat, input: Input)
    | Read(r: nat, readFault: ReadFault, generated: Uuid)
    | Write(r: nat, writeFault: WriteFault)

  predicate Enabled(s: State, l: Label) {
    match l
    case Begin(r, _) => r !in s.requests
    case Read(r, _, _) => r in s.requests && s.requests[r].phase.Waiting?
    case Write(r, _) => r in s.requests && s.requests[r].phase.Holding?
  }

  function ReadResult(s: State, l: Label): Option<Str>
    requires l.Read? && Enabled(s, l)
  {
    Get(s.table, KeyFor(s.requests[l.r].input), l.readFault)
  }

  /** One step; a label that is not enabled changes nothing. */
  function Step(s: State, l: Label): State {
    if !Enabled(s, l) then s
    else
      match l
      case Begin(r, input) => s.(requests := s.requests[r := Request(input, Waiting)])
      case Read(r, _, generated) =>
        var found := ReadResult(s, l);
        var id := if found.Some? then found.value else Print(generated);
        s.(requests := s.requests[r := Request(s.requests[r].input, Holding(id))])
      case Write(r, fault) =>
        var Request(input, phase) := s.requests[r];
        State(Put(s.table, KeyFor(input), phase.id, fault), s.requests[r := Request(input, Done(phase.id))])
  }

  /** A run: the labels in the order they happened. */
  function Exec(s: State, run: seq<Label>): State {
    if run == [] then s else Step(Exec(s, run[..|run| - 1]), run[|run| - 1])
  }

  lemma {:induction false} ExecConcat(s: State, a: seq<Label>, b: seq<Label>)
    ensures Exec(s, a + b) == Exec(Exec(s, a), b)
  {
    if b == [] {
      assert a + b == a;
    } else {
      ExecConcat(s, a, b[..|b| - 1]);
      assert (a + b)[..|a + b| - 1] == a + b[..|b| - 1];
    }
  }

  // ---------------------------------------------------------------------------
  // A binding, once settled, is stable
  // ---------------------------------------------------------------------------

  ghost predicate Holds(s: State, r: nat, k: Key) {
    r in s.requests && s.requests[r].phase.Holding? && KeyFor(s.requests[r].input) == Some(k)
  }

  /** The key is bound to `v`, and whoever is between read and write on it holds `v`. */
  ghost predicate Settled(s: State, k: Key, v: Uuid) {
    && k in s.table
    && s.table[k] == v
    && forall r :: Holds(s, r, k) ==> s.requests[r].phase.id == Print(v)
  }

  predicate ReadsKey(s: State, l: Label, k: Key) {
    l.Read? && Enabled(s, l) && KeyFor(s.requests[l.r].input) == Some(k)
  }

  predicate FaultyRead(s: State, l: Label, k: Key) {
    ReadsKey(s, l, k) && l.readFault != NoFault
  }

  /** Exactly one kind of step unsettles a binding: a read of the key that fails and makes
      its request generate another id. Write faults never do. */
  lemma UnsettledExactlyByFaultyRead(s: State, l: Label, k: Key, v: Uuid)
    requires Settled(s, k, v)
    ensures Settled(Step(s, l), k, v) <==> !(FaultyRead(s, l, k) && l.generated != v)
  {
    var t := Step(s, l);
    if FaultyRead(s, l, k) && l.generated != v {
      assert Holds(t, l.r, k);
      if Print(l.generated) == Print(v) {
        PrintIsInjective(l.generated, v);
      }
    } else {
      forall r | Holds(t, r, k) ensures t.requests[r].phase.id == Print(v) {
        assert r != l.r ==> Holds(s, r, k);
      }
      if l.Write? && Enabled(s, l) && KeyFor(s.requests[l.r].input) == Some(k) {
        assert Holds(s, l.r, k);
        ParsePrint(v);
      }
    }
  }

  predicate ReadsSucceed(s: State, run: seq<Label>, k: Key) {
    run == [] ||
    (ReadsSucceed(s, run[..|run| - 1], k) && !FaultyRead(Exec(s, run[..|run| - 1]), run[|run| - 1], k))
  }

  /** The registration ended in this run, on this key. */
  ghost predicate AnsweredSince(s: State, t: State, r: nat, k: Key) {
    && r in t.requests && t.requests[r].phase.Done? && KeyFor(t.requests[r].input) == Some(k)
    && !(r in s.requests && s.requests[r].phase.Done?)
  }

  /** In every interleaving without a failing read of the key, a settled binding stays, and
      every registration on the key answers with it. */
  lemma {:induction false} BindingIsStable(s: State, run: seq<Label>, k: Key, v: Uuid)
    requires Settled(s, k, v) && ReadsSucceed(s, run, k)
    ensures var t := Exec(s, run);
            && Settled(t, k, v)
            && forall r :: AnsweredSince(s, t, r, k) ==> t.requests[r].phase.id == Print(v)
  {
    if run != [] {
      var before, l := Exec(s, run[..|run| - 1]), run[|run| - 1];
      BindingIsStable(s, run[..|run| - 1], k, v);
      UnsettledExactlyByFaultyRead(before, l, k, v);
      AnswerOfStep(s, before, l, k, v);
    }
  }

  lemma AnswerOfStep(s: State, before: State, l: Label, k: Key, v: Uuid)
    requires Settled(before, k, v)
    requires forall r :: AnsweredSince(s, before, r, k) ==> before.requests[r].phase.id == Print(v)
    ensures var t := Step(before, l);
            forall r :: AnsweredSince(s, t, r, k) ==> t.requests[r].phase.id == Print(v)
  {
    var t := Step(before, l);
    forall r | AnsweredSince(s, t, r, k) ensures t.requests[r].phase.id == Print(v) {
      if l.Write? && Enabled(before, l) && l.r == r {
        assert Holds(before, r, k);
      } else {
        assert AnsweredSince(s, before, r, k);
      }
    }
  }

  lemma BothRead(input: Input, k: Key, a: Uuid, b: Uuid)
    requires KeyFor(input) == Some(k)
    ensures var s := State(map[], map[0 := Request(input, Waiting), 1 := Request(input, Waiting)]);
            Step(Step(s, Read(0, NoFault, a)), Read(1, NoFault, b))
            == State(map[], map[0 := Request(input, Holding(Print(a))), 1 := Request(input, Holding(Print(b)))])
  {
  }

  lemma WriteAnswersHeld(s: State, r: nat, input: Input, id: Str, fault: WriteFault)
    requires r in s.requests && s.requests[r] == Request(input, Holding(id))
    ensures Step(s, Write(r, fault)).requests == s.requests[r := Request(input, Done(id))]
  {
  }

  lemma WriteOfHeld(s: State, r: nat, input: Input, k: Key, id: Uuid, fault: WriteFault)
    requires KeyFor(input) == Some(k) && r in s.requests && s.requests[r] == Request(input, Holding(Print(id)))
    ensures Step(s, Write(r, fault)).table == if fault == Lost then s.table else s.table[k := id]
  {
    ParsePrint(id);
  }

  /** Two requests that both read before either writes answer with two ids, however the
      writes end; the last one that takes effect decides the table. */
  lemma RaceAnswersTwoIds(input: Input, k: Key, a: Uuid, b: Uuid, first: WriteFault, second: WriteFault)
    requires KeyFor(input) == Some(k) && a != b
    ensures var begun := Exec(State(map[], map[]), [Begin(0, input), Begin(1, input)]);
            var read := Exec(begun, [Read(0, NoFault, a), Read(1, NoFault, b)]);
            var t := Exec(read, [Write(0, first), Write(1, second)]);
            && t.requests == map[0 := Request(input, Done(Print(a))), 1 := Request(input, Done(Print(b)))]
            && t.table == if second != Lost then map[k := b] else if first != Lost then map[k := a] else map[]
    ensures Print(a) != Print(b)
  {
    var s := State(map[], map[]);
    RaceBegins(input);
    var begun := Exec(s, [Begin(0, input), Begin(1, input)]);
    ExecTwo(begun, Read(0, NoFault, a), Read(1, NoFault, b));
    BothRead(input, k, a, b);
    RaceEnds(Exec(begun, [Read(0, NoFault, a), Read(1, NoFault, b)]), input, k, a, b, first, second);
    if Print(a) == Print(b) {
      PrintIsInjective(a, b);
    }
  }

  lemma RaceBegins(input: Input)
    ensures Exec(State(map[], map[]), [Begin(0, input), Begin(1, input)])
         == State(map[], map[0 := Request(input, Waiting), 1 := Request(input, Waiting)])
  {
    ExecTwo(State(map[], map[]), Begin(0, input), Begin(1, input));
  }

  lemma RaceEnds(read: State, input: Input, k: Key, a: Uuid, b: Uuid, first: WriteFault, second: WriteFault)
    requires KeyFor(input) == Some(k) && read.table == map[]
    requires read.requests == map[0 := Request(input, Holding(Print(a))), 1 := Request(input, Holding(Print(b)))]
    ensures var t := Exec(read, [Write(0, first), Write(1, second)]);
            && t.requests == map[0 := Request(input, Done(Print(a))), 1 := Request(input, Done(Print(b)))]
            && t.table == if second != Lost then map[k := b] else if first != Lost then map[k := a] else map[]
  {
    ExecTwo(read, Write(0, first), Write(1, second));
    FirstWriteOfRace(read, input, k, a, b, first);
    SecondWriteOfRace(Step(read, Write(0, first)), input, k, a, b, second);
  }

  lemma FirstWriteOfRace(read: State, input: Input, k: Key, a: Uuid, b: Uuid, fault: WriteFault)
    requires KeyFor(input) == Some(k)
    requires read.requests == map[0 := Request(input, Holding(Print(a))), 1 := Request(input, Holding(Print(b)))]
    ensures var t := Step(read, Write(0, fault));
            && t.requests == map[0 := Request(input, Done(Print(a))), 1 := Request(input, Holding(Print(b)))]
            && t.table == if fault == Lost then read.table else read.table[k := a]
  {
    WriteAnswersHeld(read, 0, input, Print(a), fault);
    WriteOfHeld(read, 0, input, k, a, fault);
  }

  lemma SecondWriteOfRace(one: State, input: Input, k: Key, a: Uuid, b: Uuid, fault: WriteFault)
    requires KeyFor(input) == Some(k)
    requires one.requests == map[0 := Request(input, Done(Print(a))), 1 := Request(input, Holding(Print(b)))]
    ensures var t := Step(one, Write(1, fault));
            && t.requests == map[0 := Request(input, Done(Print(a))), 1 := Request(input, Done(Print(b)))]
            && t.table == if fault == Lost then one.table else one.table[k := b]
  {
    WriteAnswersHeld(one, 1, input, Print(b), fault);
    WriteOfHeld(one, 1, input, k, b, fault);
  }

  lemma ExecTwo(s: State, x: Label, y: Label)
    ensures Exec(s, [x, y]) == Step(Step(s, x), y)
  {
    assert [x][..0] == [] && [x, y][..1] == [x];
    assert Exec(s, [x]) == Step(s, x);
  }

  // ---------------------------------------------------------------------------
  // How many ids can compete for a key
  // ---------------------------------------------------------------------------

  predicate Misses(s: State, l: Label, k: Key) {
    ReadsKey(s, l, k) && ReadResult(s, l).None?
  }

  function MissCount(s: State, run: seq<Label>, k: Key): nat {
    if run == [] then 0
    else
      var init := run[..|run| - 1];
      MissCount(s, init, k) + if Misses(Exec(s, init), run[|run| - 1], k) then 1 else 0
  }

  /** Every id the key was ever bound to during the run. */
  function StoredIds(s: State, run: seq<Label>, k: Key): set<Uuid> {
    (if run == [] then {} else StoredIds(s, run[..|run| - 1], k))
    + (if k in Exec(s, run).table then {Exec(s, run).table[k]} else {})
  }

  function GeneratedIds(s: State, run: seq<Label>, k: Key): (ids: set<Uuid>)
    ensures |ids| <= MissCount(s, run, k)
  {
    if run == [] then {}
    else
      var init, l := run[..|run| - 1], run[|run| - 1];
      GeneratedIds(s, init, k) + NewIds(Exec(s, init), l, k)
  }

  function NewIds(s: State, l: Label, k: Key): set<Uuid> {
    if Misses(s, l, k) then {l.generated} else {}
  }

  ghost predicate Unbound(s: State, k: Key) {
    k !in s.table && forall r :: !Holds(s, r, k)
  }

  ghost predicate OnlyGenerated(t: State, k: Key, ids: set<Uuid>) {
    && (k in t.table ==> t.table[k] in ids)
    && forall r :: Holds(t, r, k) ==> exists u :: u in ids && t.requests[r].phase.id == Print(u)
  }

  lemma StepKeepsGenerated(s: State, l: Label, k: Key, ids: set<Uuid>)
    requires OnlyGenerated(s, k, ids)
    ensures OnlyGenerated(Step(s, l), k, ids + NewIds(s, l, k))
  {
    var t := Step(s, l);
    forall r | Holds(t, r, k)
      ensures exists u :: u in ids + NewIds(s, l, k) && t.requests[r].phase.id == Print(u)
    {
      if l.Read? && l.r == r && Enabled(s, l) {
        assert ReadsKey(s, l, k);
      } else {
        assert Holds(s, r, k);
      }
    }
    if l.Write? && Enabled(s, l) && KeyFor(s.requests[l.r].input) == Some(k) {
      assert Holds(s, l.r, k);
      var u :| u in ids && s.requests[l.r].phase.id == Print(u);
      ParsePrint(u);
    }
  }

  lemma {:induction false} StoredAreGenerated(s: State, run: seq<Label>, k: Key)
    requires Unbound(s, k)
    ensures OnlyGenerated(Exec(s, run), k, GeneratedIds(s, run, k))
    ensures StoredIds(s, run, k) <= GeneratedIds(s, run, k)
  {
    if run != [] {
      var init := run[..|run| - 1];
      StoredAreGenerated(s, init, k);
      StepKeepsGenerated(Exec(s, init), run[|run| - 1], k, GeneratedIds(s, init, k));
    }
  }

  lemma {:induction false} SubsetIsNoLarger<T>(a: set<T>, b: set<T>)
    requires a <= b
    ensures |a| <= |b|
  {
    if a != {} {
      var x :| x in a;
      SubsetIsNoLarger(a - {x}, b - {x});
    }
  }

  /** From an unbound key, the distinct ids ever stored under it are at most as many as the
      reads of it that found nothing. */
  lemma CompetingIdsAreBounded(s: State, run: seq<Label>, k: Key)
    requires Unbound(s, k)
    ensures |StoredIds(s, run, k)| <= MissCount(s, run, k)
  {
    StoredAreGenerated(s, run, k);
    SubsetIsNoLarger(StoredIds(s, run, k), GeneratedIds(s, run, k));
  }

  /** A key once bound stays bound, whatever fails. */
  lemma {:induction false} NeverUnbound(s: State, run: seq<Label>, k: Key)
    requires k in s.table
    ensures k in Exec(s, run).table
  {
    if run != [] {
      NeverUnbound(s, run[..|run| - 1], k);
    }
  }

  /** With the key bound, the reads that find nothing are those that fail. */
  lemma {:induction false} NoMissOnceBound(s: State, run: seq<Label>, k: Key)
    requires k in s.table
    ensures MissCount(s, run, k) == 0 <==> ReadsSucceed(s, run, k)
  {
    if run != [] {
      NoMissOnceBound(s, run[..|run| - 1], k);
      NeverUnbound(s, run[..|run| - 1], k);
    }
  }

  lemma {:induction false} MissCountConcat(s: State, a: seq<Label>, b: seq<Label>, k: Key)
    ensures MissCount(s, a + b, k) == MissCount(s, a, k) + MissCount(Exec(s, a), b, k)
  {
    if b == [] {
      assert a + b == a;
    } else {
      var init := b[..|b| - 1];
      MissCountConcat(s, a, init, k);
      ExecConcat(s, a, init);
      assert (a + b)[..|a + b| - 1] == a + init;
    }
  }

  /** Once the first write has bound the key, no further read of it finds nothing exactly while
      none fails: then all misses, hence all competitors, come before. */
  lemma MissesPrecedeFirstWrite(s: State, before: seq<Label>, after: seq<Label>, k: Key)
    requires Unbound(s, k) && k in Exec(s, before).table
    ensures MissCount(s, before + after, k) == MissCount(s, before, k) <==> ReadsSucceed(Exec(s, before), after, k)
    ensures ReadsSucceed(Exec(s, before), after, k) ==> |StoredIds(s, before + after, k)| <= MissCount(s, before, k)
  {
    NoMissOnceBound(Exec(s, before), after, k);
    MissCountConcat(s, before, after, k);
    CompetingIdsAreBounded(s, before + after, k);
  }

  // ---------------------------------------------------------------------------
  // Which ids the registrations on a key are answered with
  // ---------------------------------------------------------------------------

  /** The key is unbound and no request on it is past its read. */
  ghost predicate Untouched(s: State, k: Key) {
    && k !in s.table
    && forall r :: r in s.requests && KeyFor(s.requests[r].input) == Some(k) ==> s.requests[r].phase.Waiting?
  }

  /** Request `r` on the key holds this id or was answered with it. */
  ghost predicate HasId(s: State, r: nat, k: Key, id: Str) {
    && r in s.requests && KeyFor(s.requests[r].input) == Some(k)
    && !s.requests[r].phase.Waiting? && s.requests[r].phase.id == id
  }

  ghost predicate AllGenerated(s: State, k: Key, ids: set<Uuid>) {
    && (k in s.table ==> s.table[k] in ids)
    && forall r, id :: HasId(s, r, k, id) ==> exists u :: u in ids && id == Print(u)
  }

  ghost predicate AllInPlay(s: State, k: Key, ids: set<Uuid>) {
    forall u :: u in ids ==> exists r :: HasId(s, r, k, Print(u))
  }

  /** A step gives request `r` an id only by a read, and takes none away. */
  lemma IdsOfStep(s: State, l: Label, k: Key, r: nat, id: Str)
    ensures HasId(s, r, k, id) ==> HasId(Step(s, l), r, k, id)
    ensures HasId(Step(s, l), r, k, id) && !HasId(s, r, k, id) ==>
      l.r == r && ReadsKey(s, l, k) && id == if Misses(s, l, k) then Print(l.generated) else ReadResult(s, l).value
  {
  }

  lemma StepKeepsAllGenerated(s: State, l: Label, k: Key, ids: set<Uuid>)
    requires AllGenerated(s, k, ids)
    ensures AllGenerated(Step(s, l), k, ids + NewIds(s, l, k))
  {
    var t := Step(s, l);
    forall r, id | HasId(t, r, k, id) ensures exists u :: u in ids + NewIds(s, l, k) && id == Print(u) {
      IdsOfStep(s, l, k, r, id);
      if !HasId(s, r, k, id) {
        var u := if Misses(s, l, k) then l.generated else s.table[k];
        assert u in ids + NewIds(s, l, k) && id == Print(u);
      }
    }
    if l.Write? && Enabled(s, l) && KeyFor(s.requests[l.r].input) == Some(k) {
      assert HasId(s, l.r, k, s.requests[l.r].phase.id);
      var u :| u in ids && s.requests[l.r].phase.id == Print(u);
      ParsePrint(u);
    }
  }

  lemma StepKeepsAllInPlay(s: State, l: Label, k: Key, ids: set<Uuid>)
    requires AllInPlay(s, k, ids)
    ensures AllInPlay(Step(s, l), k, ids + NewIds(s, l, k))
  {
    forall u | u in ids + NewIds(s, l, k) ensures exists r :: HasId(Step(s, l), r, k, Print(u)) {
      if u in ids {
        var r :| HasId(s, r, k, Print(u));
        IdsOfStep(s, l, k, r, Print(u));
      } else {
        assert HasId(Step(s, l), l.r, k, Print(u));
      }
    }
  }

  ghost predicate IdsAre(s: State, k: Key, ids: set<Uuid>) {
    AllGenerated(s, k, ids) && AllInPlay(s, k, ids)
  }

  lemma StepKeepsIds(s: State, l: Label, k: Key, ids: set<Uuid>)
    requires IdsAre(s, k, ids)
    ensures IdsAre(Step(s, l), k, ids + NewIds(s, l, k))
  {
    StepKeepsAllGenerated(s, l, k, ids);
    StepKeepsAllInPlay(s, l, k, ids);
  }

  lemma UntouchedHasNoIds(s: State, k: Key)
    requires Untouched(s, k)
    ensures IdsAre(s, k, {})
  {
  }

  /** At any moment the ids that requests hold or were answered with are exactly the ids
      generated so far: none comes from elsewhere, and none is dropped. */
  lemma {:induction false} IdsAreGenerated(s: State, run: seq<Label>, k: Key)
    requires Untouched(s, k)
    ensures IdsAre(Exec(s, run), k, GeneratedIds(s, run, k))
  {
    if run == [] {
      UntouchedHasNoIds(s, k);
    } else {
      var init, l := run[..|run| - 1], run[|run| - 1];
      IdsAreGenerated(s, init, k);
      StepKeepsIds(Exec(s, init), l, k, GeneratedIds(s, init, k));
    }
  }

  predicate AnsweredOn(s: State, r: nat, k: Key) {
    r in s.requests && KeyFor(s.requests[r].input) == Some(k) && s.requests[r].phase.Done?
  }

  /** The ids that registrations on the key were answered with. */
  function ToldIds(s: State, k: Key): set<Str> {
    set r | r in s.requests && AnsweredOn(s, r, k) :: s.requests[r].phase.id
  }

  function Printed(ids: set<Uuid>): set<Str> {
    set u | u in ids :: Print(u)
  }

  lemma {:induction false} AsManyPrinted(ids: set<Uuid>)
    ensures |Printed(ids)| == |ids|
  {
    if ids != {} {
      var u :| u in ids;
      AsManyPrinted(ids - {u});
      if Print(u) in Printed(ids - {u}) {
        var v :| v in ids - {u} && Print(v) == Print(u);
        PrintIsInjective(u, v);
      }
      assert Printed(ids) == Printed(ids - {u}) + {Print(u)};
    }
  }

  lemma OneElementExactly<T>(a: set<T>)
    ensures |a| <= 1 <==> forall x, y :: x in a && y in a ==> x == y
  {
    if x, y :| x in a && y in a && x != y {
      SubsetIsNoLarger({x, y}, a);
    }
    if |a| > 1 {
      var x :| x in a;
      assert |a - {x}| > 0;
      var y :| y in a - {x};
    }
  }

  /** Nobody on the key is between its read and its write. */
  ghost predicate Quiet(s: State, k: Key) {
    forall r :: !Holds(s, r, k)
  }

  /** Once every registration on the key that has read it is answered, the ids told to the
      clients are exactly those generated, however reads and writes failed or interleaved. */
  lemma ToldIdsAreGenerated(s: State, run: seq<Label>, k: Key)
    requires Untouched(s, k) && Quiet(Exec(s, run), k)
    ensures ToldIds(Exec(s, run), k) == Printed(GeneratedIds(s, run, k))
    ensures |ToldIds(Exec(s, run), k)| == |GeneratedIds(s, run, k)|
  {
    var t, ids := Exec(s, run), GeneratedIds(s, run, k);
    IdsAreGenerated(s, run, k);
    forall id | id in ToldIds(t, k) ensures id in Printed(ids) {
      var r :| r in t.requests && AnsweredOn(t, r, k) && t.requests[r].phase.id == id;
      assert HasId(t, r, k, id);
    }
    forall u | u in ids ensures Print(u) in ToldIds(t, k) {
      var r :| HasId(t, r, k, Print(u));
      assert !Holds(t, r, k);
      assert AnsweredOn(t, r, k);
    }
    AsManyPrinted(ids);
  }

  ghost predicate AnswersAgree(s: State, k: Key) {
    forall r, q :: AnsweredOn(s, r, k) && AnsweredOn(s, q, k) ==> s.requests[r].phase.id == s.requests[q].phase.id
  }

  /** In every interleaving, under every fault: all registrations on a key agree on one id if
      and only if no two different ids were generated for it. */
  lemma AnswersAgreeExactly(s: State, run: seq<Label>, k: Key)
    requires Untouched(s, k) && Quiet(Exec(s, run), k)
    ensures AnswersAgree(Exec(s, run), k) <==> |GeneratedIds(s, run, k)| <= 1
  {
    var t := Exec(s, run);
    ToldIdsAreGenerated(s, run, k);
    OneElementExactly(ToldIds(t, k));
    if AnswersAgree(t, k) {
      forall x, y | x in ToldIds(t, k) && y in ToldIds(t, k) ensures x == y {}
    } else {
      var r, q :| AnsweredOn(t, r, k) && AnsweredOn(t, q, k) && t.requests[r].phase.id != t.requests[q].phase.id;
      assert t.requests[r].phase.id in ToldIds(t, k) && t.requests[q].phase.id in ToldIds(t, k);
    }
  }

  /** No read that found nothing made up an id that had been made up for the key before. */
  predicate GeneratesAnew(s: State, run: seq<Label>, k: Key) {
    run == [] ||
    var init, l := run[..|run| - 1], run[|run| - 1];
    GeneratesAnew(s, init, k) && (Misses(Exec(s, init), l, k) ==> l.generated !in GeneratedIds(s, init, k))
  }

  lemma {:induction false} MissesCountExactly(s: State, run: seq<Label>, k: Key)
    ensures |GeneratedIds(s, run, k)| == MissCount(s, run, k) <==> GeneratesAnew(s, run, k)
  {
    if run != [] {
      var init, l := run[..|run| - 1], run[|run| - 1];
      MissesCountExactly(s, init, k);
      assert |GeneratedIds(s, init, k)| <= MissCount(s, init, k);
    }
  }

  /** With ids that are all different, the clients are told as many ids as reads found
      nothing, so they agree exactly when at most one did. */
  lemma AnswersCountMisses(s: State, run: seq<Label>, k: Key)
    requires Untouched(s, k) && Quiet(Exec(s, run), k) && GeneratesAnew(s, run, k)
    ensures |ToldIds(Exec(s, run), k)| == MissCount(s, run, k)
    ensures AnswersAgree(Exec(s, run), k) <==> MissCount(s, run, k) <= 1
  {
    ToldIdsAreGenerated(s, run, k);
    AnswersAgreeExactly(s, run, k);
    MissesCountExactly(s, run, k);
  }

  // ---------------------------------------------------------------------------
  // What the table can hold
  // ---------------------------------------------------------------------------

  /** A key in the table was there at the start, or is that of a request whose device allows
      tracking and sent an advertising id other than nil. */
  lemma {:induction false} KeysComeFromTrackedDevices(s: State, run: seq<Label>, k: Key)
    requires k in Exec(s, run).table
    ensures k in s.table || exists r :: r in Exec(s, run).requests && KeyFor(Exec(s, run).requests[r].input) == Some(k)
    ensures k in s.table || HasNonzeroDigit(k.ifa)
    ensures k in s.table || exists r :: r in Exec(s, run).requests && Exec(s, run).requests[r].input.trackingEnabled
  {
    if run != [] && k !in s.table {
      var init, l := Exec(s, run[..|run| - 1]), run[|run| - 1];
      if k in init.table {
        KeysComeFromTrackedDevices(s, run[..|run| - 1], k);
        var r :| r in init.requests && KeyFor(init.requests[r].input) == Some(k);
        assert r in Step(init, l).requests && Step(init, l).requests[r].input == init.requests[r].input;
      } else {
        assert l.Write? && KeyFor(init.requests[l.r].input) == Some(k);
        assert l.r in Step(init, l).requests;
      }
    }
  }

  ghost predicate IdsPrinted(s: State) {
    forall r :: r in s.requests && !s.requests[r].phase.Waiting? ==> exists u :: s.requests[r].phase.id == Print(u)
  }

  /** Ids held or answered are always printed UUIDs. */
  lemma {:induction false} IdsArePrinted(s: State, run: seq<Label>)
    requires IdsPrinted(s)
    ensures IdsPrinted(Exec(s, run))
  {
    if run != [] {
      IdsArePrinted(s, run[..|run| - 1]);
      StepPrints(Exec(s, run[..|run| - 1]), run[|run| - 1]);
    }
  }

  lemma StepPrints(s: State, l: Label)
    requires IdsPrinted(s)
    ensures IdsPrinted(Step(s, l))
  {
    var t := Step(s, l);
    forall r | r in t.requests && !t.requests[r].phase.Waiting? ensures exists u :: t.requests[r].phase.id == Print(u) {
      if l.Read? && l.r == r && Enabled(s, l) {
        var key := KeyFor(s.requests[r].input);
        var u := if ReadResult(s, l).Some? then s.table[key.value] else l.generated;
        assert t.requests[r].phase.id == Print(u);
      }
    }
  }
}
