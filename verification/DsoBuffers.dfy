/** The per-thread buffer of loaded objects and its flush rule
    (services/collector/collector.c, cbtf_offline_record_dso, cbtf_offline_send_dsos, cbtf_record_dsos). */
module DsoBuffers {
  import opened LinkedObjects
  import opened Sequences

  function NamesLength(objects: seq<LinkedObject>): nat {
    if objects == [] then 0 else NamesLength(objects[..|objects| - 1]) + |objects[|objects| - 1].path|
  }

  lemma NamesLengthSnoc(objects: seq<LinkedObject>, o: LinkedObject)
    ensures NamesLength(objects + [o]) == NamesLength(objects) + |o.path|
  {
    assert (objects + [o])[..|objects|] == objects;
  }

  ghost predicate Nameless(objects: seq<LinkedObject>) {
    forall i :: 0 <= i < |objects| ==> objects[i].path == ""
  }

  lemma {:induction false} NamelessIff(objects: seq<LinkedObject>)
    ensures NamesLength(objects) == 0 <==> Nameless(objects)
  {
    if objects != [] {
      NamelessIff(objects[..|objects| - 1]);
    }
  }

  // ---------------------------------------------------------------- the flush rule

  /** Room for so many objects of so many bytes. */
  datatype Room = Room(capacity: nat, size: nat)

  /** The flush test: objects and names together against the room for objects alone. */
  predicate MustFlush(room: Room, len: nat, namesLen: nat, name: string) {
    len * room.size + (namesLen + |name|) > room.capacity * room.size
  }

  /** Where the next object is written. */
  function Slot(room: Room, len: nat, namesLen: nat, name: string): nat {
    if MustFlush(room, len, namesLen, name) then 0 else len
  }

  lemma SlotInRangeIff(room: Room, len: nat, namesLen: nat, name: string)
    requires room.capacity > 0 && room.size > 0 && len <= room.capacity
    ensures Slot(room, len, namesLen, name) < room.capacity <==> !(len == room.capacity && namesLen + |name| == 0)
  {
  }

  /** After recording these objects from an empty buffer, the buffer holds those from here on. */
  function Begin(room: Room, objects: seq<LinkedObject>): (b: nat)
    ensures b <= |objects|
  {
    if objects == [] then 0
    else
      var n := |objects| - 1;
      NextBegin(room, Begin(room, objects[..n]), objects[..n], objects[n])
  }

  /** The same one object later. */
  function NextBegin(room: Room, b: nat, objects: seq<LinkedObject>, o: LinkedObject): (b': nat)
    requires b <= |objects|
    ensures b' <= |objects|
  {
    if MustFlush(room, |objects| - b, NamesLength(objects[b..]), o.path) then |objects| else b
  }

  /** Object i of the recorded ones is written outside the buffer. */
  predicate OverrunAt(room: Room, objects: seq<LinkedObject>, i: nat)
    requires i < |objects|
  {
    var b := Begin(room, objects[..i]);
    Slot(room, i - b, NamesLength(objects[..i][b..]), objects[i].path) >= room.capacity
  }

  ghost predicate InRange(room: Room, objects: seq<LinkedObject>) {
    forall i: nat :: i < |objects| ==> !OverrunAt(room, objects, i)
  }

  /** The buffer is full with nameless objects only, and so is object i. */
  ghost predicate FullOfNameless(room: Room, objects: seq<LinkedObject>, i: nat)
    requires i < |objects|
  {
    var b := Begin(room, objects[..i]);
    i - b == room.capacity && Nameless(objects[b..i + 1])
  }

  lemma InRangePrefix(room: Room, objects: seq<LinkedObject>, k: nat)
    requires InRange(room, objects) && k <= |objects|
    ensures InRange(room, objects[..k])
  {
    forall i: nat | i < k
      ensures !OverrunAt(room, objects[..k], i)
    {
      assert !OverrunAt(room, objects, i);
      assert objects[..k][..i] == objects[..i];
    }
  }

  lemma {:induction false} HeldInRange(room: Room, objects: seq<LinkedObject>)
    requires InRange(room, objects)
    ensures |objects| - Begin(room, objects) <= room.capacity
  {
    hide MustFlush, NamesLength;
    if objects != [] {
      var n := |objects| - 1;
      InRangePrefix(room, objects, n);
      HeldInRange(room, objects[..n]);
      assert !OverrunAt(room, objects, n);
    }
  }

  lemma OverrunMeansFull(room: Room, objects: seq<LinkedObject>, i: nat)
    requires room.capacity > 0 && room.size > 0 && i < |objects|
    requires i - Begin(room, objects[..i]) <= room.capacity
    ensures OverrunAt(room, objects, i) <==> FullOfNameless(room, objects, i)
  {
    hide Slot, Begin, NamesLength;
    var b := Begin(room, objects[..i]);
    assert objects[..i][b..] == objects[b..i];
    SlotInRangeIff(room, i - b, NamesLength(objects[b..i]), objects[i].path);
    assert objects[b..i + 1] == objects[b..i] + [objects[i]];
    NamesLengthSnoc(objects[b..i], objects[i]);
    NamelessIff(objects[b..i + 1]);
  }

  lemma {:induction false} FirstOverrun(room: Room, objects: seq<LinkedObject>) returns (i: nat)
    requires !InRange(room, objects)
    ensures i < |objects| && OverrunAt(room, objects, i) && InRange(room, objects[..i])
  {
    hide OverrunAt;
    var n := |objects| - 1;
    if InRange(room, objects[..n]) {
      i := n;
      forall j: nat | j < n
        ensures !OverrunAt(room, objects, j)
      {
        OverrunLocal(room, objects, n, j);
      }
    } else {
      i := FirstOverrun(room, objects[..n]);
      OverrunLocal(room, objects, n, i);
      assert objects[..n][..i] == objects[..i];
    }
  }

  lemma OverrunLocal(room: Room, objects: seq<LinkedObject>, n: nat, i: nat)
    requires i < n <= |objects|
    ensures OverrunAt(room, objects[..n], i) <==> OverrunAt(room, objects, i)
  {
    hide Begin, NamesLength, Slot;
    assert objects[..n][..i] == objects[..i];
  }

  /** A whole list is recorded inside the buffer exactly when it never meets, with a nameless object,
      a buffer full of nameless objects. */
  lemma InRangeIff(room: Room, objects: seq<LinkedObject>)
    requires room.capacity > 0 && room.size > 0
    ensures InRange(room, objects) <==> forall i: nat :: i < |objects| ==> !FullOfNameless(room, objects, i)
  {
    hide OverrunAt, FullOfNameless, Begin;
    if InRange(room, objects) {
      forall i: nat | i < |objects|
        ensures !FullOfNameless(room, objects, i)
      {
        InRangePrefix(room, objects, i);
        HeldInRange(room, objects[..i]);
        OverrunMeansFull(room, objects, i);
      }
    } else {
      var i := FirstOverrun(room, objects);
      HeldInRange(room, objects[..i]);
      OverrunMeansFull(room, objects, i);
    }
  }

  /** Any capacity + 1 objects in a row have a name among them. */
  ghost predicate NamesOftenEnough(room: Room, objects: seq<LinkedObject>) {
    forall j: nat, k: nat :: j <= k <= |objects| && k - j > room.capacity ==> !Nameless(objects[j..k])
  }

  lemma OftenEnoughIsInRange(room: Room, objects: seq<LinkedObject>)
    requires room.capacity > 0 && room.size > 0 && NamesOftenEnough(room, objects)
    ensures InRange(room, objects)
  {
    hide InRange, Nameless, Begin;
    InRangeIff(room, objects);
  }

  lemma {:induction false} NamelessNeverFlush(room: Room, objects: seq<LinkedObject>)
    requires Nameless(objects) && |objects| <= room.capacity + 1
    ensures Begin(room, objects) == 0
  {
    if objects != [] {
      var n := |objects| - 1;
      NamelessNeverFlush(room, objects[..n]);
      NamelessIff(objects[..n][0..]);
      NoFlush(room, n);
    }
  }

  lemma NoFlush(room: Room, len: nat)
    requires len <= room.capacity
    ensures !MustFlush(room, len, 0, "")
  {
  }

  /** Nameless objects alone are in range exactly up to the capacity: one more is written at the
      position just past the end. */
  lemma NamelessInRangeIff(room: Room, objects: seq<LinkedObject>)
    requires room.capacity > 0 && room.size > 0 && Nameless(objects)
    ensures InRange(room, objects) <==> |objects| <= room.capacity
    ensures |objects| > room.capacity ==>
              Begin(room, objects[..room.capacity]) == 0 && OverrunAt(room, objects, room.capacity)
  {
    hide InRange, Begin, OverrunAt;
    InRangeIff(room, objects);
    if |objects| > room.capacity {
      NamelessNeverFlush(room, objects[..room.capacity]);
      OverrunMeansFull(room, objects, room.capacity);
    } else {
      assert NamesOftenEnough(room, objects);
      OftenEnoughIsInRange(room, objects);
    }
  }

  // ---------------------------------------------------------------- where the groups are cut

  /** Objects and names of a group against the room for objects alone. */
  ghost predicate TooMuch(room: Room, g: seq<LinkedObject>, next: LinkedObject) {
    |g| * room.size + NamesLength(g) + |next.path| > room.capacity * room.size
  }

  /** No object of a group but its first was too much for those before it. */
  ghost predicate Together(room: Room, g: seq<LinkedObject>) {
    forall j :: 1 <= j < |g| ==> !TooMuch(room, g[..j], g[j])
  }

  /** The objects in groups: a new group begins exactly where the next object is too much for the one
      before, and only the first group can be empty. */
  ghost predicate Cut(room: Room, groups: seq<seq<LinkedObject>>, objects: seq<LinkedObject>) {
    && Flatten(groups) == objects
    && (forall k :: 0 <= k < |groups| ==> Together(room, groups[k]))
    && (forall k :: 0 < k < |groups| ==> groups[k] != [] && TooMuch(room, groups[k - 1], groups[k][0]))
  }

  lemma TogetherSnoc(room: Room, g: seq<LinkedObject>, o: LinkedObject)
    requires Together(room, g) && (g == [] || !TooMuch(room, g, o))
    ensures Together(room, g + [o])
  {
    hide TooMuch;
    var more := g + [o];
    forall j | 1 <= j < |more|
      ensures !TooMuch(room, more[..j], more[j])
    {
      if j < |g| {
        assert more[..j] == g[..j];
      } else {
        assert more[..j] == g;
      }
    }
  }

  /** One more object in the last group. */
  lemma CutStays(room: Room, groups: seq<seq<LinkedObject>>, g: seq<LinkedObject>, objects: seq<LinkedObject>,
                 o: LinkedObject)
    requires Cut(room, groups + [g], objects) && !TooMuch(room, g, o)
    ensures Cut(room, groups + [g + [o]], objects + [o])
  {
    hide TooMuch, Together, Flatten;
    var before, after := groups + [g], groups + [g + [o]];
    FlattenSnoc(groups, g);
    FlattenSnoc(groups, g + [o]);
    assert before[|groups|] == g && after[|groups|] == g + [o];
    TogetherSnoc(room, g, o);
    forall k | 0 < k < |after|
      ensures after[k] != [] && TooMuch(room, after[k - 1], after[k][0])
    {
      assert before[k] != [] && TooMuch(room, before[k - 1], before[k][0]);
      assert after[k - 1] == before[k - 1] && after[k][0] == before[k][0];
    }
    forall k | 0 <= k < |after|
      ensures Together(room, after[k])
    {
      assert Together(room, before[k]);
    }
  }

  /** One more object in a group of its own. */
  lemma CutAgain(room: Room, groups: seq<seq<LinkedObject>>, g: seq<LinkedObject>, objects: seq<LinkedObject>,
                 o: LinkedObject)
    requires Cut(room, groups + [g], objects) && TooMuch(room, g, o)
    ensures Cut(room, groups + [g] + [[o]], objects + [o])
  {
    hide TooMuch, Together, Flatten;
    var before := groups + [g];
    FlattenSnoc(before, [o]);
    TogetherAlone(room, o);
    assert before[|groups|] == g;
  }

  /** The groups sent, and the one in the buffer, after one more object. */
  ghost function Sent(room: Room, groups: seq<seq<LinkedObject>>, g: seq<LinkedObject>, o: LinkedObject)
    : seq<seq<LinkedObject>>
  {
    if TooMuch(room, g, o) then groups + [g] else groups
  }

  ghost function Held(room: Room, g: seq<LinkedObject>, o: LinkedObject): seq<LinkedObject> {
    (if TooMuch(room, g, o) then [] else g) + [o]
  }

  lemma HeldTogether(room: Room, g: seq<LinkedObject>, o: LinkedObject)
    requires Together(room, g)
    ensures Together(room, Held(room, g, o))
  {
    hide TooMuch;
    TogetherAlone(room, o);
    assert [] + [o] == [o];
    if !TooMuch(room, g, o) {
      TogetherSnoc(room, g, o);
    }
  }

  lemma CutOne(room: Room, groups: seq<seq<LinkedObject>>, g: seq<LinkedObject>, objects: seq<LinkedObject>,
               o: LinkedObject)
    requires Cut(room, groups + [g], objects)
    ensures Cut(room, Sent(room, groups, g, o) + [Held(room, g, o)], objects + [o])
  {
    hide TooMuch, Cut;
    if TooMuch(room, g, o) {
      CutAgain(room, groups, g, objects, o);
      assert [] + [o] == [o];
    } else {
      CutStays(room, groups, g, objects, o);
    }
  }

  lemma TogetherAlone(room: Room, o: LinkedObject)
    ensures Together(room, [o]) && Together(room, [])
  {
  }

  /** There is only one such cut. */
  lemma {:induction false} CutUnique(room: Room, a: seq<seq<LinkedObject>>, b: seq<seq<LinkedObject>>,
                                     objects: seq<LinkedObject>)
    requires Cut(room, a, objects) && Cut(room, b, objects) && a != [] && b != [] && (a[0] == [] <==> b[0] == [])
    ensures a == b
    decreases |a|
  {
    hide TooMuch;
    FirstNoShorter(room, a, b, objects);
    FirstNoShorter(room, b, a, objects);
    assert a[0] == objects[..|a[0]|] && b[0] == objects[..|b[0]|];
    var rest := objects[|a[0]|..];
    assert Flatten(a[1..]) == rest && Flatten(b[1..]) == rest;
    CutTail(room, a, objects);
    CutTail(room, b, objects);
    if |a| > 1 && |b| > 1 {
      CutUnique(room, a[1..], b[1..], rest);
    } else {
      OneOrMore(room, a, rest);
      OneOrMore(room, b, rest);
    }
    assert a == [a[0]] + a[1..] && b == [b[0]] + b[1..];
  }

  lemma CutTail(room: Room, a: seq<seq<LinkedObject>>, objects: seq<LinkedObject>)
    requires Cut(room, a, objects) && a != []
    ensures a[0] == objects[..|a[0]|] && Cut(room, a[1..], objects[|a[0]|..])
    ensures |a| > 1 ==> a[1..][0] != []
  {
    hide TooMuch, Together;
    var t := a[1..];
    assert objects == a[0] + Flatten(t);
    forall k | 0 < k < |t|
      ensures t[k] != [] && TooMuch(room, t[k - 1], t[k][0])
    {
      assert t[k] == a[k + 1] && t[k - 1] == a[k];
    }
  }

  lemma OneOrMore(room: Room, a: seq<seq<LinkedObject>>, rest: seq<LinkedObject>)
    requires a != [] && Flatten(a[1..]) == rest && (|a| > 1 ==> a[1..][0] != [])
    ensures |a| == 1 <==> rest == []
  {
    if |a| > 1 {
      assert Flatten(a[1..]) == a[1..][0] + Flatten(a[1..][1..]);
    }
  }

  /** The first group of one cut is no shorter than that of another. */
  lemma FirstNoShorter(room: Room, a: seq<seq<LinkedObject>>, b: seq<seq<LinkedObject>>, objects: seq<LinkedObject>)
    requires Cut(room, a, objects) && Cut(room, b, objects) && a != [] && b != [] && (a[0] == [] <==> b[0] == [])
    ensures |b[0]| <= |a[0]|
  {
    hide TooMuch, Together;
    CutTail(room, a, objects);
    CutTail(room, b, objects);
    if |a| > 1 {
      NextIsTooMuch(room, a, objects);
    } else {
      assert a == [a[0]];
    }
    if 1 <= |a[0]| < |b[0]| {
      InsideIsNot(room, b, objects, |a[0]|);
    }
  }

  lemma NextIsTooMuch(room: Room, a: seq<seq<LinkedObject>>, objects: seq<LinkedObject>)
    requires Cut(room, a, objects) && |a| > 1
    ensures var n := |a[0]|; n < |objects| && TooMuch(room, objects[..n], objects[n])
  {
    hide TooMuch, Together;
    assert objects == a[0] + Flatten(a[1..]);
    assert Flatten(a[1..]) == a[1..][0] + Flatten(a[1..][1..]);
    assert objects[|a[0]|] == Flatten(a[1..])[0] == a[1][0];
    assert TooMuch(room, a[0], a[1][0]);
    assert objects[..|a[0]|] == a[0];
  }

  lemma InsideIsNot(room: Room, b: seq<seq<LinkedObject>>, objects: seq<LinkedObject>, n: nat)
    requires Cut(room, b, objects) && b != [] && 1 <= n < |b[0]|
    ensures n < |objects| && !TooMuch(room, objects[..n], objects[n])
  {
    hide TooMuch;
    assert objects == b[0] + Flatten(b[1..]);
    assert Together(room, b[0]);
    assert objects[..n] == b[0][..n];
  }

  // ---------------------------------------------------------------- the buffer

  class DsoBuffer {
    const size: nat
    const objs: array<LinkedObject>
    var connected: bool
    var len: nat
    var dsonameLen: nat
    var sent: seq<seq<LinkedObject>>
    /** Recorded since the buffer was last emptied by cbtf_record_dsos. */
    ghost var recorded: seq<LinkedObject>

    ghost function Space(): Room
      reads this
    {
      Room(objs.Length, size)
    }

    ghost predicate Valid()
      reads this, objs
    {
      && size > 0 && objs.Length > 0 && len <= objs.Length
      && InRange(Space(), recorded) && objs[..len] == recorded[Begin(Space(), recorded)..]
      && dsonameLen == NamesLength(objs[..len]) && Together(Space(), objs[..len])
    }

    ghost function Taken(): seq<LinkedObject>
      requires len <= objs.Length
      reads this, objs
    {
      Flatten(sent) + objs[..len]
    }

    constructor (maxLinkedObjects: nat, objectSize: nat, isConnected: bool, blank: LinkedObject)
      requires maxLinkedObjects > 0 && objectSize > 0
      ensures Valid() && recorded == [] && Taken() == [] && connected == isConnected && fresh(objs)
      ensures objs.Length == maxLinkedObjects && size == objectSize
    {
      size, connected, len, dsonameLen, sent, recorded := objectSize, isConnected, 0, 0, [], [];
      objs := new LinkedObject[maxLinkedObjects](_ => blank);
      new;
      EmptyBuffer(Space());
      assert objs[..0] == [];
    }

    /** Send the buffer as one group, if connected, and empty it. */
    method SendDsos()
      requires len <= objs.Length
      modifies this`len, this`dsonameLen, this`sent
      ensures len == 0 && dsonameLen == 0
      ensures Taken() == if connected then old(Taken()) else old(Flatten(sent))
      ensures sent == if connected then old(sent) + [old(objs[..len])] else old(sent)
    {
      if connected {
        FlattenSnoc(sent, objs[..len]);
        sent := sent + [objs[..len]];
      }
      len := 0;
      dsonameLen := 0;
      assert objs[..0] == [];
    }

    /** False stands for a write outside the buffer. */
    method RecordDso(o: LinkedObject) returns (ok: bool)
      requires Valid()
      modifies this`len, this`dsonameLen, this`sent, this`recorded, objs
      ensures ok <==> !OverrunAt(Space(), old(recorded) + [o], |old(recorded)|)
      ensures ok ==> Valid() && recorded == old(recorded) + [o]
      ensures ok && connected ==> Taken() == old(Taken()) + [o]
      ensures ok ==> len <= objs.Length && objs[..len] == Held(Space(), old(objs[..len]), o)
      ensures sent == if connected then Sent(Space(), old(sent), old(objs[..len]), o) else old(sent)
    {
      hide MustFlush, NamesLength, Flatten, InRange, Begin, OverrunAt, TooMuch, Together;
      ghost var g := objs[..len];
      FlushIff(Space(), g, o);
      HeldTogether(Space(), g, o);
      RecordOne(Space(), recorded, o);
      ghost var b := Begin(Space(), recorded);
      if MustFlush(Room(objs.Length, size), len, dsonameLen, o.path) {
        SendDsos();
        assert recorded[b..] + [o] == (recorded + [o])[b..];
        assert (recorded + [o])[|recorded|..] == [o];
        NoNames();
      }
      if len >= objs.Length {
        return false;
      }
      ghost var before := objs[..len];
      objs[len] := o;
      len := len + 1;
      assert objs[..len] == before + [o];
      NamesLengthSnoc(before, o);
      dsonameLen := dsonameLen + |o.path|;
      recorded := recorded + [o];
      assert objs[..len] == Held(Space(), g, o);
      return true;
    }

    /** One object after the other; groups are those sent on the way. */
    method RecordAll(objects: seq<LinkedObject>) returns (ok: bool, ghost groups: seq<seq<LinkedObject>>)
      requires Valid()
      modifies this`len, this`dsonameLen, this`sent, this`recorded, objs
      ensures ok <==> InRange(Space(), old(recorded) + objects)
      ensures ok ==> Valid() && recorded == old(recorded) + objects
      ensures ok ==> sent == (if connected then old(sent) + groups else old(sent))
      ensures ok ==> Cut(Space(), groups + [objs[..len]], old(objs[..len]) + objects)
      ensures ok ==> (len == 0 <==> old(len) == 0 && objects == []) && (objects == [] ==> groups == [])
      ensures !connected ==> sent == old(sent)
    {
      hide Begin, OverrunAt, NamesLength, Flatten, TooMuch, Together, Cut, InRange, Sent, Held;
      ghost var first := objs[..len];
      groups := [];
      CutStart(Space(), first);
      assert [] + [first] == [first] && first + objects[..0] == first;
      for i := 0 to |objects|
        invariant Valid() && recorded == old(recorded) + objects[..i]
        invariant sent == if connected then old(sent) + groups else old(sent)
        invariant Cut(Space(), groups + [objs[..len]], first + objects[..i])
        invariant (len == 0 <==> old(len) == 0 && i == 0) && (i == 0 ==> groups == [])
      {
        ghost var g := objs[..len];
        CutNext(Space(), old(sent), groups, g, first, objects, i);
        OverrunNext(Space(), old(recorded), objects, i);
        var fits := RecordDso(objects[i]);
        if !fits {
          return false, groups;
        }
        groups := Sent(Space(), groups, g, objects[i]);
      }
      assert objects[..|objects|] == objects;
      return true, groups;
    }

    /** All objects of the address space, then what is left in the buffer. While connected the groups
        sent are the objects recorded, in order, a new group for each object that is too much for the
        one before it. */
    method RecordDsos(objects: seq<LinkedObject>) returns (ok: bool, ghost groups: seq<seq<LinkedObject>>)
      requires Valid()
      modifies this`len, this`dsonameLen, this`sent, this`recorded, objs
      ensures ok <==> InRange(Space(), old(recorded) + objects)
      ensures ok ==> Valid() && len == 0 && recorded == []
      ensures ok ==> sent == if connected then old(sent) + groups else old(sent)
      ensures ok ==>
                if old(len) == 0 && objects == [] then groups == []
                else Cut(Space(), groups, old(objs[..len]) + objects)
      ensures ok && connected ==> Flatten(sent) == old(Taken()) + objects
      ensures !connected ==> sent == old(sent)
    {
      hide Begin, OverrunAt, NamesLength, Flatten, TooMuch, Together, Cut, InRange;
      ok, groups := RecordAll(objects);
      if !ok {
        return;
      }
      ghost var g := objs[..len];
      if len > 0 {
        SendDsos();
        groups := groups + [g];
        CutSends(Space(), old(sent), groups, old(objs[..len]), objects);
        assert connected ==> sent == old(sent) + groups;
        assert old(Taken()) == old(Flatten(sent)) + old(objs[..len]);
      } else {
        assert old(objs[..len]) == [] && groups == [];
        assert old(sent) + [] == old(sent);
        assert old(Flatten(sent)) + [] + [] == old(Flatten(sent));
      }
      assert objs[..0] == [];
      recorded := [];
      EmptyBuffer(Space());
    }
  }

  lemma FlushIff(room: Room, g: seq<LinkedObject>, o: LinkedObject)
    ensures MustFlush(room, |g|, NamesLength(g), o.path) <==> TooMuch(room, g, o)
  {
  }

  lemma NoNames()
    ensures NamesLength([]) == 0
  {
  }

  lemma OverrunNext(room: Room, before: seq<LinkedObject>, objects: seq<LinkedObject>, i: nat)
    requires i < |objects|
    ensures before + objects[..i] + [objects[i]] == before + objects[..i + 1]
    ensures OverrunAt(room, before + objects[..i] + [objects[i]], |before + objects[..i]|) ==>
              !InRange(room, before + objects)
  {
    hide OverrunAt;
    var all, n := before + objects, |before| + i;
    assert all[..n + 1] == before + objects[..i] + [objects[i]];
    OverrunLocal(room, all, n + 1, n);
  }

  lemma CutNext(room: Room, sent: seq<seq<LinkedObject>>, groups: seq<seq<LinkedObject>>, g: seq<LinkedObject>,
                first: seq<LinkedObject>, objects: seq<LinkedObject>, i: nat)
    requires i < |objects| && Cut(room, groups + [g], first + objects[..i])
    ensures var o := objects[i];
            && Cut(room, Sent(room, groups, g, o) + [Held(room, g, o)], first + objects[..i + 1])
            && Sent(room, sent + groups, g, o) == sent + Sent(room, groups, g, o) && Held(room, g, o) != []
  {
    hide Cut, TooMuch;
    CutOne(room, groups, g, first + objects[..i], objects[i]);
    assert first + objects[..i + 1] == first + objects[..i] + [objects[i]];
    assert sent + groups + [g] == sent + (groups + [g]);
  }

  lemma CutSends(room: Room, sent: seq<seq<LinkedObject>>, groups: seq<seq<LinkedObject>>, first: seq<LinkedObject>,
                 objects: seq<LinkedObject>)
    requires Cut(room, groups, first + objects)
    ensures Flatten(sent + groups) == Flatten(sent) + first + objects
  {
    FlattenConcat(sent, groups);
  }

  lemma CutStart(room: Room, g: seq<LinkedObject>)
    requires Together(room, g)
    ensures Cut(room, [g], g)
  {
    hide Together;
    assert [g][1..] == [] && Flatten([g]) == g + [] == g;
  }

  lemma EmptyBuffer(room: Room)
    ensures Begin(room, []) == 0 && NamesLength([]) == 0 && InRange(room, []) && Together(room, [])
  {
  }

  /** Recording one more object. */
  lemma RecordOne(room: Room, objects: seq<LinkedObject>, o: LinkedObject)
    requires InRange(room, objects)
    ensures var b, n, more := Begin(room, objects), |objects|, objects + [o];
            var flush := MustFlush(room, n - b, NamesLength(objects[b..]), o.path);
            && Begin(room, more) == (if flush then n else b)
            && (OverrunAt(room, more, n) <==> (if flush then 0 else n - b) >= room.capacity)
            && (!OverrunAt(room, more, n) ==> InRange(room, more))
  {
    var n, more := |objects|, objects + [o];
    RecordedOne(room, objects, o);
    assert more[..n] == objects;
    hide Begin, OverrunAt;
    forall i: nat | i < n
      ensures !OverrunAt(room, more, i)
    {
      OverrunLocal(room, more, n, i);
    }
  }

  lemma RecordedOne(room: Room, objects: seq<LinkedObject>, o: LinkedObject)
    ensures var b, n, more := Begin(room, objects), |objects|, objects + [o];
            var flush := MustFlush(room, n - b, NamesLength(objects[b..]), o.path);
            && Begin(room, more) == (if flush then n else b)
            && (OverrunAt(room, more, n) <==> (if flush then 0 else n - b) >= room.capacity)
  {
    hide MustFlush, NamesLength, Begin;
    var n, more := |objects|, objects + [o];
    assert more[..n] == objects && more[n] == o;
    BeginSnoc(room, objects, o);
  }

  lemma BeginSnoc(room: Room, objects: seq<LinkedObject>, o: LinkedObject)
    ensures Begin(room, objects + [o]) == NextBegin(room, Begin(room, objects), objects, o)
  {
    hide NextBegin;
    var n, more := |objects|, objects + [o];
    assert more[..n] == objects && more[n] == o;
  }
}
