/** The mutex-guarded Heartbeat of recordingCoordinator (no_inbound_test.go): the Seq gate and the log entry
    are two separate critical sections, so concurrent calls interleave between them. */
module HeartbeatGate {
  import opened Bytes

  datatype Op = OpHeartbeat | OpOther(name: string)
  datatype Beat = Beat(node: Text, seqNo: uint64)

  /** The guarded fields, and the calls that have passed the gate but not yet logged. */
  datatype State = State(calls: seq<Op>, lastSeq: uint64, nodeSeen: Text, pending: multiset<Beat>)

  const INITIAL := State([], 0, [], multiset{})

  /** One critical section, run to completion under the mutex. */
  datatype Section =
    | Gate(h: Beat)               // Heartbeat, up to the first Unlock
    | NoteBeat(h: Beat)           // the note of an admitted heartbeat
    | NoteOther(name: string, node: Text)

  /** A section can be scheduled; a note needs a call that is past the gate. */
  predicate Enabled(s: State, a: Section) {
    a.NoteBeat? ==> a.h in s.pending
  }

  function Noted(s: State, op: Op, node: Text): State {
    s.(calls := s.calls + [op], nodeSeen := if node != [] then node else s.nodeSeen)
  }

  function Step(s: State, a: Section): State {
    match a
    case Gate(h) => if h.seqNo <= s.lastSeq then s else s.(lastSeq := h.seqNo, pending := s.pending + multiset{h})
    case NoteBeat(h) => Noted(s.(pending := s.pending - multiset{h}), OpHeartbeat, h.node)
    case NoteOther(name, node) => Noted(s, OpOther(name), node)
  }

  function Run(es: seq<Section>): State {
    if es == [] then INITIAL else Step(Run(es[..|es| - 1]), es[|es| - 1])
  }

  /** Any interleaving the mutex allows. */
  predicate Schedule(es: seq<Section>) {
    es == [] || (Schedule(es[..|es| - 1]) && Enabled(Run(es[..|es| - 1]), es[|es| - 1]))
  }

  class RecordingCoordinator {
    var calls: seq<Op>
    var lastSeq: uint64
    var nodeSeen: Text
    ghost var pending: multiset<Beat>

    ghost function Now(): State
      reads this
    {
      State(calls, lastSeq, nodeSeen, pending)
    }

    constructor ()
      ensures Now() == INITIAL
    {
      calls, lastSeq, nodeSeen, pending := [], 0, [], multiset{};
    }

    /** The first locked section of Heartbeat; false is errSeq. */
    method HeartbeatGate(h: Beat) returns (admitted: bool)
      modifies this
      ensures Now() == Step(old(Now()), Gate(h))
      ensures admitted <==> h.seqNo > old(lastSeq)
    {
      if h.seqNo <= lastSeq { return false; }
      lastSeq := h.seqNo;
      pending := pending + multiset{h};
      admitted := true;
    }

    /** The locked section of note. */
    method Note(op: Op, node: Text)
      modifies `calls, `nodeSeen
      ensures Now() == Noted(old(Now()), op, node)
    {
      calls := calls + [op];
      if node != [] { nodeSeen := node; }
    }

    /** A call run without interruption is the two sections back to back. */
    method Heartbeat(h: Beat) returns (ok: bool)
      modifies this
      ensures ok <==> h.seqNo > old(lastSeq)
      ensures Now() == if ok then Step(Step(old(Now()), Gate(h)), NoteBeat(h)) else old(Now())
    {
      ok := HeartbeatGate(h);
      if !ok { return; }
      pending := pending - multiset{h};
      Note(OpHeartbeat, h.node);
    }
  }

  // ---------------------------------------------------------------- every schedule

  /** The Seqs admitted, in the order the gate admitted them. */
  function Admitted(es: seq<Section>): seq<uint64> {
    if es == [] then []
    else
      var init, a := es[..|es| - 1], es[|es| - 1];
      Admitted(init) + if a.Gate? && a.h.seqNo > Run(init).lastSeq then [a.h.seqNo] else []
  }

  /** Every Seq that reached the gate, admitted or not. */
  function Attempts(es: seq<Section>): multiset<uint64> {
    if es == [] then multiset{}
    else
      var a := es[|es| - 1];
      Attempts(es[..|es| - 1]) + if a.Gate? then multiset{a.h.seqNo} else multiset{}
  }

  function BeatsLogged(calls: seq<Op>): nat {
    if calls == [] then 0
    else BeatsLogged(calls[..|calls| - 1]) + if calls[|calls| - 1] == OpHeartbeat then 1 else 0
  }

  predicate StrictlyIncreasing(qs: seq<uint64>) {
    forall i, j :: 0 <= i < j < |qs| ==> qs[i] < qs[j]
  }

  lemma IncreasingSnoc(qs: seq<uint64>, q: uint64)
    requires StrictlyIncreasing(qs) && (qs != [] ==> qs[|qs| - 1] < q)
    ensures StrictlyIncreasing(qs + [q])
  {
    forall i | 0 <= i < |qs| ensures qs[i] < q {
      assert i < |qs| - 1 ==> qs[i] < qs[|qs| - 1];
    }
  }

  /** Whatever the schedule, admitted Seqs strictly increase in gate order, and lastSeq is the last of them. */
  lemma {:induction false} AdmittedIncrease(es: seq<Section>)
    ensures StrictlyIncreasing(Admitted(es))
    ensures Run(es).lastSeq == if Admitted(es) == [] then 0 else Admitted(es)[|Admitted(es)| - 1]
  {
    if es != [] {
      hide StrictlyIncreasing, Noted;
      var init, a := es[..|es| - 1], es[|es| - 1];
      var qs := Admitted(init);
      AdmittedIncrease(init);
      if a.Gate? && a.h.seqNo > Run(init).lastSeq {
        assert Admitted(es) == qs + [a.h.seqNo];
        IncreasingSnoc(qs, a.h.seqNo);
      } else {
        assert Admitted(es) == qs;
      }
    }
  }

  /** Whatever the schedule, every admitted call is logged or still between its two sections. */
  lemma {:induction false} AdmittedAreLoggedOrPending(es: seq<Section>)
    requires Schedule(es)
    ensures |Admitted(es)| == BeatsLogged(Run(es).calls) + |Run(es).pending|
  {
    if es != [] {
      var init := es[..|es| - 1];
      AdmittedAreLoggedOrPending(init);
      var before, after := Run(init), Run(es);
      assert es[|es| - 1].Gate? || after.calls[..|after.calls| - 1] == before.calls;
    }
  }

  /** lastSeq is the greatest Seq that ever reached the gate, admitted or refused, or 0. */
  lemma {:induction false} LastSeqIsMaximum(es: seq<Section>)
    ensures forall q :: q in Attempts(es) ==> q <= Run(es).lastSeq
    ensures Run(es).lastSeq == 0 || Run(es).lastSeq in Attempts(es)
  {
    if es != [] { LastSeqIsMaximum(es[..|es| - 1]); }
  }

  /** So it does not depend on the interleaving: the same heartbeats in any order, with any notes between,
      end at the same Seq. */
  lemma LastSeqIgnoresOrder(es: seq<Section>, fs: seq<Section>)
    requires Attempts(es) == Attempts(fs)
    ensures Run(es).lastSeq == Run(fs).lastSeq
  {
    LastSeqIsMaximum(es);
    LastSeqIsMaximum(fs);
  }

  lemma Snoc(es: seq<Section>, a: Section)
    ensures Run(es + [a]) == Step(Run(es), a)
    ensures Schedule(es + [a]) <==> Schedule(es) && Enabled(Run(es), a)
    ensures Admitted(es + [a]) == Admitted(es) + if a.Gate? && a.h.seqNo > Run(es).lastSeq then [a.h.seqNo] else []
    ensures Attempts(es + [a]) == Attempts(es) + if a.Gate? then multiset{a.h.seqNo} else multiset{}
  {
    assert (es + [a])[..|es|] == es;
  }

  /** A call reaching the gate is admitted exactly when its Seq is positive and above every Seq that reached the gate
      before it, admitted or not. */
  lemma AdmittedExactly(es: seq<Section>, h: Beat)
    ensures Admitted(es + [Gate(h)]) == Admitted(es) + [h.seqNo] <==>
      h.seqNo > 0 && forall q :: q in Attempts(es) ==> q < h.seqNo
  {
    hide Admitted, Attempts, Run, Schedule;
    Snoc(es, Gate(h));
    LastSeqIsMaximum(es);
  }

  /** Two calls in a row, after any schedule: their order decides what is admitted exactly when their Seqs differ and
      both are above everything before them. The lower one is then shut out by coming second. */
  lemma AdmissionDependsOnOrder(es: seq<Section>, h1: Beat, h2: Beat)
    requires h1.seqNo <= h2.seqNo
    ensures
      var low, high := h1.seqNo, h2.seqNo;
      var up, down := es + [Gate(h1)] + [Gate(h2)], es + [Gate(h2)] + [Gate(h1)];
      && (Admitted(up) != Admitted(down) <==> Run(es).lastSeq < low < high)
      && (Admitted(up) != Admitted(down) ==>
            Admitted(up) == Admitted(es) + [low] + [high] && Admitted(down) == Admitted(es) + [high])
  {
    hide Admitted, Attempts, Run, Schedule;
    Snoc(es, Gate(h1));
    Snoc(es + [Gate(h1)], Gate(h2));
    Snoc(es, Gate(h2));
    Snoc(es + [Gate(h2)], Gate(h1));
    assert |Admitted(es) + [h1.seqNo] + [h2.seqNo]| != |Admitted(es) + [h2.seqNo]|;
  }

  /** The operation a note appends. */
  function LoggedAs(a: Section): Op {
    if a.NoteOther? then OpOther(a.name) else OpHeartbeat
  }

  /** The positions of the notes in a schedule, in order. */
  ghost predicate NotePositions(es: seq<Section>, at: seq<nat>) {
    && (forall i, j :: 0 <= i < j < |at| ==> at[i] < at[j])
    && (forall k :: k in at <==> 0 <= k < |es| && !es[k].Gate?)
  }

  lemma NotePositionsSnoc(es: seq<Section>, at: seq<nat>, a: Section)
    requires NotePositions(es, at)
    ensures NotePositions(es + [a], if a.Gate? then at else at + [|es|])
  {
    var fs := es + [a];
    if a.Gate? {
      forall k ensures k in at <==> 0 <= k < |fs| && !fs[k].Gate? {}
    } else {
      var at' := at + [|es|];
      forall k ensures k in at' <==> 0 <= k < |fs| && !fs[k].Gate? {}
      forall i | 0 <= i < |at| ensures at[i] < |es| { assert at[i] in at; }
    }
  }

  /** The log holds exactly the operations noted, in schedule order: its i-th entry is that of the i-th note. */
  lemma {:induction false} CallsAreNoted(es: seq<Section>) returns (at: seq<nat>)
    ensures NotePositions(es, at) && |at| == |Run(es).calls|
    ensures forall i :: 0 <= i < |at| ==> at[i] < |es| && Run(es).calls[i] == LoggedAs(es[at[i]])
  {
    hide NotePositions, LoggedAs;
    if es == [] {
      at := [];
      assert NotePositions([], []) by { NoNotes(); }
    } else {
      var n := |es| - 1;
      var init := es[..n];
      var before := CallsAreNoted(init);
      NotePositionsSnoc(init, before, es[n]);
      assert init + [es[n]] == es;
      at := if es[n].Gate? then before else before + [n];
      Logs(es);
    }
  }

  lemma NoNotes()
    ensures NotePositions([], [])
  {}

  lemma Logs(es: seq<Section>)
    requires es != []
    ensures Run(es).calls == Run(es[..|es| - 1]).calls + if es[|es| - 1].Gate? then [] else [LoggedAs(es[|es| - 1])]
  {}

  function NotedNode(a: Section): Text {
    match a
    case Gate(_) => []
    case NoteBeat(h) => h.node
    case NoteOther(_, node) => node
  }

  /** The i-th section is the last note that names a node; -1, that no note named one. */
  predicate LastNamed(es: seq<Section>, i: int) {
    && -1 <= i < |es| && (i >= 0 ==> NotedNode(es[i]) != [])
    && forall j :: i < j < |es| ==> NotedNode(es[j]) == []
  }

  /** nodeSeen is the node of the last note that names one, whatever the gate admitted meanwhile. */
  lemma {:induction false} NodeSeenIsLastNoted(es: seq<Section>, i: int)
    requires LastNamed(es, i)
    ensures Run(es).nodeSeen == if i < 0 then [] else NotedNode(es[i])
  {
    if es != [] && i < |es| - 1 {
      assert NotedNode(es[|es| - 1]) == [];
      assert LastNamed(es[..|es| - 1], i);
      NodeSeenIsLastNoted(es[..|es| - 1], i);
    }
  }

  /** So nodeSeen can lag behind lastSeq: after any schedule, two calls admitted in the order of their Seqs leave it at
      the higher one's node when they log in that order, and at the lower one's node when they log in the other. */
  lemma NodeSeenCanLag(es: seq<Section>, h1: Beat, h2: Beat)
    requires Schedule(es) && Run(es).lastSeq < h1.seqNo < h2.seqNo && h1.node != [] && h2.node != []
    ensures
      var gated := es + [Gate(h1)] + [Gate(h2)];
      var kept, lagging := gated + [NoteBeat(h1)] + [NoteBeat(h2)], gated + [NoteBeat(h2)] + [NoteBeat(h1)];
      && Schedule(kept) && Run(kept).lastSeq == h2.seqNo && Run(kept).nodeSeen == h2.node
      && Schedule(lagging) && Run(lagging).lastSeq == h2.seqNo && Run(lagging).nodeSeen == h1.node
  {
    hide Admitted, Attempts, Run, Schedule;
    Snoc(es, Gate(h1));
    Snoc(es + [Gate(h1)], Gate(h2));
    var gated := es + [Gate(h1)] + [Gate(h2)];
    Snoc(gated, NoteBeat(h1));
    Snoc(gated + [NoteBeat(h1)], NoteBeat(h2));
    Snoc(gated, NoteBeat(h2));
    Snoc(gated + [NoteBeat(h2)], NoteBeat(h1));
  }
}
