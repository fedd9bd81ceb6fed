/** What happens to uniqueness when a time is out of range and Buffer.Time appends nothing. */
module Skipped {
  import opened Bytes
  import opened Instants
  import opened Wire
  import opened Messages
  import opened Decoder

  /** Where a type's first time field stands; only times and plain words follow it. */
  function Cut(k: Kind): nat {
    match k
    case KListing => 12
    case KHeartbeat => 1
    case KAssignment => 10
    case KDecline => 3
    case KJobReport => 5
    case KFee => 3
    case KLease => 6
    case KLeaseDecline => 3
    case KLeaseRelease => 2
    case KProof => 6
    case KRotation => 3
    case KRevocation => 2
    case KTransmission => 7
    case KOperatorRotation => 9
    case KConformance => 5
  }

  lemma CutSplitsTimes(k: Kind)
    ensures Cut(k) <= |Schema(k)|
    ensures forall i :: 0 <= i < Cut(k) ==> !Schema(k)[i].STime?
    ensures forall i :: Cut(k) <= i < |Schema(k)| ==> Schema(k)[i].STime? || Schema(k)[i].SWord?
  {}

  predicate Fixed(v: Value) {
    v.VWord? || v.VTime?
  }

  /** The words that fixed-width fields put on the wire: a skipped time contributes none. */
  function Ticks(vs: seq<Value>): seq<uint64> {
    if vs == [] then []
    else
      (match vs[0]
       case VWord(u) => [u]
       case VTime(t) => if ValidTime(t) then [TimeWord(t)] else []
       case _ => []) + Ticks(vs[1..])
  }

  function Words(us: seq<uint64>): bytes {
    if us == [] then [] else Word(us[0]) + Words(us[1..])
  }

  lemma {:induction false} WordsConcat(us: seq<uint64>, ws: seq<uint64>)
    ensures Words(us + ws) == Words(us) + Words(ws)
  {
    if us == [] {
      assert us + ws == ws;
    } else {
      WordsConcat(us[1..], ws);
      assert (us + ws)[1..] == us[1..] + ws;
    }
  }

  lemma {:induction false} WordsInjective(us: seq<uint64>, ws: seq<uint64>)
    requires Words(us) == Words(ws)
    ensures us == ws
  {
    if us != [] && ws != [] {
      WordInjective(us[0], ws[0], Words(us[1..]), Words(ws[1..]));
      WordsInjective(us[1..], ws[1..]);
    }
  }

  lemma TicksCons(v: Value, vs: seq<Value>)
    requires v.VTime?
    ensures Ticks([v] + vs) == (if ValidTime(v.t) then [TimeWord(v.t)] else []) + Ticks(vs)
  {
    assert ([v] + vs)[1..] == vs;
  }

  lemma OneTick(v: Value)
    requires Fixed(v)
    ensures Encode(v) == Words(Ticks([v]))
  {
    hide Word, ValidTime, TimeWord;
    assert Ticks([v][1..]) == [];
    assert |Ticks([v])| == 1 ==> Words(Ticks([v])[1..]) == [];
  }

  lemma {:induction false} EncodeTicks(vs: seq<Value>)
    requires forall i :: 0 <= i < |vs| ==> Fixed(vs[i])
    ensures EncodeAll(vs) == Words(Ticks(vs))
  {
    hide Encode, Word, ValidTime, TimeWord;
    if vs != [] {
      EncodeTicks(vs[1..]);
      OneTick(vs[0]);
      assert Ticks([vs[0]][1..]) == [];
      WordsConcat(Ticks([vs[0]]), Ticks(vs[1..]));
    }
  }

  /** One word per field is left exactly when no time was skipped. */
  lemma {:induction false} TicksLength(vs: seq<Value>)
    requires forall i :: 0 <= i < |vs| ==> Fixed(vs[i])
    ensures |Ticks(vs)| <= |vs|
    ensures |Ticks(vs)| == |vs| <==> forall i :: 0 <= i < |vs| && vs[i].VTime? ==> ValidTime(vs[i].t)
  {
    if vs != [] {
      TicksLength(vs[1..]);
      assert forall i :: 1 <= i < |vs| ==> vs[i] == vs[1..][i - 1];
    }
  }

  function Head(m: Message): seq<Value> {
    CutSplitsTimes(KindOf(m));
    FieldsShaped(m);
    Fields(m)[..Cut(KindOf(m))]
  }

  function Tail(m: Message): seq<Value> {
    CutSplitsTimes(KindOf(m));
    FieldsShaped(m);
    Fields(m)[Cut(KindOf(m))..]
  }

  lemma Split(m: Message)
    ensures FitAll(Head(m), Schema(KindOf(m))[..Cut(KindOf(m))])
    ensures forall i :: 0 <= i < |Tail(m)| ==> Fixed(Tail(m)[i])
    ensures EncodeAll(Fields(m)) == EncodeAll(Head(m)) + Words(Ticks(Tail(m)))
    ensures |Head(m)| == Cut(KindOf(m)) && |Tail(m)| == |Schema(KindOf(m))| - Cut(KindOf(m))
    ensures ValidTimes(m) <==> |Ticks(Tail(m))| == |Tail(m)|
  {
    CutSplitsTimes(KindOf(m));
    FieldsShaped(m);
    SplitFields(Fields(m), Schema(KindOf(m)), Cut(KindOf(m)));
  }

  lemma SplitFields(f: seq<Value>, shs: seq<Shape>, h: nat)
    requires AllShaped(f, shs) && h <= |f|
    requires forall i :: 0 <= i < h ==> !shs[i].STime?
    requires forall i :: h <= i < |f| ==> shs[i].STime? || shs[i].SWord?
    ensures FitAll(f[..h], shs[..h])
    ensures forall i :: 0 <= i < |f[h..]| ==> Fixed(f[h..][i])
    ensures EncodeAll(f) == EncodeAll(f[..h]) + Words(Ticks(f[h..]))
    ensures (forall i :: 0 <= i < |f| && f[i].VTime? ==> ValidTime(f[i].t)) <==> |Ticks(f[h..])| == |f[h..]|
  {
    var head, tail := f[..h], f[h..];
    forall i | 0 <= i < h ensures Fits(head[i], shs[..h][i]) { assert Shaped(f[i], shs[i]); }
    FitAllAt(head, shs[..h]);
    forall i | 0 <= i < |tail| ensures Fixed(tail[i]) { assert Shaped(f[h + i], shs[h + i]); }
    EncodeConcat(head, tail);
    assert f == head + tail;
    EncodeTicks(tail);
    TicksLength(tail);
    if |Ticks(tail)| == |tail| {
      forall i | 0 <= i < |f| && f[i].VTime? ensures ValidTime(f[i].t) {
        assert Shaped(f[i], shs[i]);
        assert i >= h;
        assert f[i] == tail[i - h];
      }
    } else {
      var i :| 0 <= i < |tail| && tail[i].VTime? && !ValidTime(tail[i].t);
      assert f[h + i] == tail[i];
    }
  }

  /** What a verifier can see of a message through its canonical bytes. */
  datatype View = View(kind: Kind, head: seq<Value>, ticks: seq<uint64>)

  function Visible(m: Message): View {
    View(KindOf(m), Head(m), Ticks(Tail(m)))
  }

  lemma {:induction false} WordsPrefix(us: seq<uint64>, t: bytes, ws: seq<uint64>)
    requires Words(us) + t == Words(ws)
    ensures us <= ws
  {
    if us != [] {
      assert ws != [] by { assert |Words(us)| >= 8; }
      Assoc(Word(us[0]), Words(us[1..]), t);
      WordInjective(us[0], ws[0], Words(us[1..]) + t, Words(ws[1..]));
      WordsPrefix(us[1..], t, ws[1..]);
    }
  }

  lemma HeadWordsPrefix(shs: seq<Shape>, h1: seq<Value>, h2: seq<Value>, w1: seq<uint64>, t: bytes, w2: seq<uint64>)
    requires FitAll(h1, shs) && FitAll(h2, shs)
    requires EncodeAll(h1) + (Words(w1) + t) == EncodeAll(h2) + Words(w2)
    ensures h1 == h2 && w1 <= w2
  {
    ParseEncodeAll(shs, h1, Words(w1) + t);
    ParseEncodeAll(shs, h2, Words(w2));
    WordsPrefix(w1, t, w2);
  }

  /** For any two messages whatever, times valid or not: one's bytes begin the other's exactly when the types agree,
      the fields before the first time agree, and the words not skipped begin the other's. */
  lemma PrefixExactly(m1: Message, m2: Message)
    ensures Canonical(m1) <= Canonical(m2) <==>
      KindOf(m1) == KindOf(m2) && Head(m1) == Head(m2) && Ticks(Tail(m1)) <= Ticks(Tail(m2))
  {
    hide Canonical, KindOf, Head, Tail, Ticks, Schema, Fields;
    Split(m1);
    Split(m2);
    var w1, w2 := Ticks(Tail(m1)), Ticks(Tail(m2));
    if Canonical(m1) <= Canonical(m2) {
      var t := Canonical(m2)[|Canonical(m1)|..];
      assert Canonical(m1) + t == Canonical(m2) + [];
      TypesDisjoint(m1, m2, t, []);
      Assoc(EncodeAll(Head(m1)), Words(w1), t);
      assert EncodeAll(Fields(m2)) + [] == EncodeAll(Fields(m2));
      HeadWordsPrefix(Schema(KindOf(m1))[..Cut(KindOf(m1))], Head(m1), Head(m2), w1, t, w2);
    }
    if KindOf(m1) == KindOf(m2) && Head(m1) == Head(m2) && w1 <= w2 {
      WordsConcat(w1, w2[|w1|..]);
      assert w1 + w2[|w1|..] == w2;
      Assoc(EncodeAll(Head(m1)), Words(w1), Words(w2[|w1|..]));
      SameTagPrefix(m1, m2, Words(w2[|w1|..]));
    }
  }

  lemma SameTagPrefix(m1: Message, m2: Message, t: bytes)
    requires KindOf(m1) == KindOf(m2) && EncodeAll(Fields(m1)) + t == EncodeAll(Fields(m2))
    ensures Canonical(m1) <= Canonical(m2)
  {
    hide KindOf, Fields, EncodeAll, Encode;
    Assoc(Encode(VStr(TagBytes(KindOf(m1)))), EncodeAll(Fields(m1)), t);
  }

  /** In particular their bytes agree exactly when the types, the fields before the first time, and the words that were
      not skipped agree. */
  lemma CollideExactly(m1: Message, m2: Message)
    ensures Canonical(m1) == Canonical(m2) <==> Visible(m1) == Visible(m2)
  {
    hide Canonical, KindOf, Head, Tail, Ticks;
    PrefixExactly(m1, m2);
    PrefixExactly(m2, m1);
  }

  /** How many time fields were skipped. */
  function SkippedTimes(m: Message): int {
    |Tail(m)| - |Ticks(Tail(m))|
  }

  /** Colliding messages skipped equally many times; so bytes with a skipped time never equal
      the bytes of a message whose times are all representable, and two of the latter are the same message. */
  lemma SkippedTimeSeparation(m1: Message, m2: Message)
    requires Canonical(m1) == Canonical(m2)
    ensures SkippedTimes(m1) == SkippedTimes(m2) >= 0
    ensures SkippedTimes(m1) == 0 <==> ValidTimes(m1)
    ensures ValidTimes(m1) ==> ValidTimes(m2) && m1 == m2
  {
    hide Head, Tail, Ticks, Fixed, ValidTimes, Canonical, Cut, Schema;
    CollideExactly(m1, m2);
    Split(m1);
    Split(m2);
    TicksLength(Tail(m1));
    if ValidTimes(m1) {
      assert Canonical(m1) + [] == Canonical(m2) + [];
      PrefixFree(m1, m2, [], []);
    }
  }

  // ---------------------------------------------------------------- exactly when bytes identify a message

  /** Another instant out of range. */
  function Later(t: Instant): Instant {
    Instant(if t.sec < 0 then t.sec - 1 else t.sec + 1, t.nsec)
  }

  lemma {:induction false} TicksUpdate(vs: seq<Value>, i: nat, t: Instant)
    requires i < |vs| && vs[i].VTime? && !ValidTime(vs[i].t) && !ValidTime(t)
    ensures Ticks(vs[i := VTime(t)]) == Ticks(vs)
  {
    var ws := vs[i := VTime(t)];
    if i == 0 {
      assert ws[1..] == vs[1..];
    } else {
      assert ws[1..] == vs[1..][i - 1 := VTime(t)];
      TicksUpdate(vs[1..], i - 1, t);
    }
  }

  /** A message with a skipped time has a twin: another message with the same bytes. */
  lemma SkippedTwin(m: Message) returns (twin: Message)
    requires !ValidTimes(m)
    ensures twin != m && Canonical(twin) == Canonical(m)
  {
    hide Canonical, Build, Ticks, Fields;
    var k, f := KindOf(m), Fields(m);
    FieldsShaped(m);
    CutSplitsTimes(k);
    var i :| 0 <= i < |f| && f[i].VTime? && !ValidTime(f[i].t);
    assert Shaped(f[i], Schema(k)[i]) && i >= Cut(k);
    var g := f[i := VTime(Later(f[i].t))];
    forall j | 0 <= j < |g| ensures Shaped(g[j], Schema(k)[j]) { assert Shaped(f[j], Schema(k)[j]); }
    FieldsBuild(k, g);
    twin := Build(k, g);
    assert Head(twin) == Head(m);
    assert Tail(twin) == Tail(m)[i - Cut(k) := VTime(Later(f[i].t))];
    TicksUpdate(Tail(m), i - Cut(k), Later(f[i].t));
    CollideExactly(twin, m);
  }

  /** What a signer can check beforehand decides it: a message's bytes are no other message's exactly when its times are
      representable. */
  lemma UniqueExactly(m: Message)
    ensures (forall other :: Canonical(other) == Canonical(m) ==> other == m) <==> ValidTimes(m)
  {
    hide Canonical, ValidTimes;
    if ValidTimes(m) {
      forall other | Canonical(other) == Canonical(m) ensures other == m { SkippedTimeSeparation(m, other); }
    } else {
      var twin := SkippedTwin(m);
    }
  }

  /** The fixed-width values of the given shapes that put the given words on the wire. */
  function Fill(shs: seq<Shape>, us: seq<uint64>): seq<Value>
    requires |shs| == |us|
  {
    if shs == [] then []
    else [if shs[0].STime? then VTime(UnixOfNanos(AsInt64(us[0]))) else VWord(us[0])] + Fill(shs[1..], us[1..])
  }

  lemma {:induction false} FillTicks(shs: seq<Shape>, us: seq<uint64>)
    requires |shs| == |us| && forall i :: 0 <= i < |shs| ==> shs[i].STime? || shs[i].SWord?
    ensures AllShaped(Fill(shs, us), shs) && Ticks(Fill(shs, us)) == us
  {
    if shs != [] {
      FillTicks(shs[1..], us[1..]);
      var t := UnixOfNanos(AsInt64(us[0]));
      UnixNanoBijective(t, AsInt64(us[0]));
      assert Fill(shs, us)[1..] == Fill(shs[1..], us[1..]);
    }
  }

  /** Any words can be completed into a message with valid times and the given leading fields. */
  lemma Completion(m: Message, us: seq<uint64>) returns (full: Message)
    requires |us| == |Tail(m)|
    ensures ValidTimes(full) && Visible(full) == Visible(m).(ticks := us)
  {
    hide Canonical, Build, Ticks, Fields;
    var k := KindOf(m);
    CutSplitsTimes(k);
    FieldsShaped(m);
    var shs := Schema(k)[Cut(k)..];
    FillTicks(shs, us);
    var f := Head(m) + Fill(shs, us);
    forall i | 0 <= i < |f| ensures Shaped(f[i], Schema(k)[i]) {
      if i < Cut(k) { assert f[i] == Fields(m)[i]; } else { assert f[i] == Fill(shs, us)[i - Cut(k)]; }
    }
    FieldsBuild(k, f);
    full := Build(k, f);
    assert Head(full) == Head(m) && Tail(full) == Fill(shs, us);
    Split(full);
  }

  /** Likewise a message's bytes begin no longer message exactly when its times are representable. */
  lemma ExtendedExactly(m: Message)
    ensures (exists longer :: Canonical(m) < Canonical(longer)) <==> !ValidTimes(m)
  {
    hide Canonical, ValidTimes, Ticks, Head, Tail;
    Split(m);
    var w := Ticks(Tail(m));
    if ValidTimes(m) {
      forall longer | Canonical(m) <= Canonical(longer) ensures Canonical(m) == Canonical(longer) {
        PrefixExactly(m, longer);
        Split(longer);
        TicksLength(Tail(longer));
        CollideExactly(m, longer);
      }
    } else {
      TicksLength(Tail(m));
      var us := w + seq(|Tail(m)| - |w|, _ => 0);
      var full := Completion(m, us);
      PrefixExactly(m, full);
      CollideExactly(m, full);
      assert Canonical(m) < Canonical(full);
    }
  }

  /** Injectivity does fail beyond valid times: a report that skipped its start and one that skipped its end
      carry the same bytes, for every choice of the other fields. */
  lemma SkippedReportsCollide(r: Message, t: Instant, bad1: Instant, bad2: Instant)
    requires r.JobReport? && ValidTime(t) && !ValidTime(bad1) && !ValidTime(bad2)
    ensures var early, late := r.(startedAt := bad1, finishedAt := t), r.(startedAt := t, finishedAt := bad2);
      early != late && Canonical(early) == Canonical(late)
  {
    var early, late := r.(startedAt := bad1, finishedAt := t), r.(startedAt := t, finishedAt := bad2);
    assert Head(early) == Head(late);
    assert Tail(early) == [VTime(bad1)] + ([VTime(t)] + []) && Tail(late) == [VTime(t)] + ([VTime(bad2)] + []);
    TicksCons(VTime(bad1), [VTime(t)] + []);
    TicksCons(VTime(t), []);
    TicksCons(VTime(t), [VTime(bad2)] + []);
    TicksCons(VTime(bad2), []);
    CollideExactly(early, late);
  }

  /** So between releases: one's bytes properly begin another's exactly when both leave the same lease of the same node
      and only the first skipped its time. */
  lemma SkippedReleaseIsPrefix(r: Message, s: Message)
    requires r.LeaseRelease? && s.LeaseRelease?
    ensures Canonical(s) < Canonical(r) <==>
      s.leaseID == r.leaseID && s.nodeID == r.nodeID && !ValidTime(s.releasedAt) && ValidTime(r.releasedAt)
  {
    PrefixExactly(s, r);
    CollideExactly(s, r);
    assert Head(r) == [VStr(r.leaseID), VStr(r.nodeID)] && Head(s) == [VStr(s.leaseID), VStr(s.nodeID)];
    assert Tail(r) == [VTime(r.releasedAt)] + [] && Tail(s) == [VTime(s.releasedAt)] + [];
    TicksCons(VTime(r.releasedAt), []);
    TicksCons(VTime(s.releasedAt), []);
  }
}
