/** The strict JSON visitor of src/strict_json.rs: a document's tree is rebuilt
    while object keys are checked for repeats and every node is charged to one shared
    budget. The tokenizer is not modelled: its output is a tree with ordered,
    possibly repeated, keys. */
module StrictJson {
  import opened Basics

  const MAX_JSON_NODES: nat := 262_144
  const USIZE_MAX: nat := 0xFFFF_FFFF_FFFF_FFFF

  /** A document as the tokenizer reports it. A `Float` may be reported non-finite. */
  datatype Json =
    | Null
    | Bool(b: bool)
    | Integer(n: int)
    | Float(finite: bool, bits: nat)
    | Text(s: Bytes)
    | Array(items: seq<Json>)
    | Object(members: seq<Member>)

  datatype Member = Member(key: Bytes, value: Json)

  /** The rebuilt value: objects are maps. */
  datatype Value =
    | VNull
    | VBool(b: bool)
    | VInteger(n: int)
    | VFloat(bits: nat)
    | VText(s: Bytes)
    | VArray(items: seq<Value>)
    | VObject(members: map<Bytes, Value>)

  // ---- what a document is, independently of the visitor ----

  /** The number of values in a document, containers included. */
  function NodeCount(j: Json): nat
    decreases j, 0
  {
    match j
    case Array(items) => 1 + ItemNodes(items)
    case Object(members) => 1 + MemberNodes(members)
    case _ => 1
  }

  function ItemNodes(items: seq<Json>): nat
    decreases items, 1
  {
    if items == [] then 0 else NodeCount(items[0]) + ItemNodes(items[1..])
  }

  function MemberNodes(members: seq<Member>): nat
    decreases members, 1
  {
    if members == [] then 0 else NodeCount(members[0].value) + MemberNodes(members[1..])
  }

  predicate DistinctKeys(members: seq<Member>) {
    forall i, j :: 0 <= i < j < |members| ==> members[i].key != members[j].key
  }

  /** No object at any depth repeats a key, and every number is finite. */
  predicate Clean(j: Json) {
    match j
    case Float(finite, _) => finite
    case Array(items) => forall i :: 0 <= i < |items| ==> Clean(items[i])
    case Object(members) =>
      DistinctKeys(members) && forall i :: 0 <= i < |members| ==> Clean(members[i].value)
    case _ => true
  }

  /** What reading a document meets, in preorder: a node, or a fault that ends the reading. */
  datatype Event = Node | Fault

  function Events(j: Json): seq<Event>
    decreases j, 0
  {
    match j
    case Float(finite, _) => if finite then [Node] else [Node, Fault]
    case Array(items) => [Node] + ItemEvents(items)
    case Object(members) => [Node] + MemberEvents(members, {})
    case _ => [Node]
  }

  function ItemEvents(items: seq<Json>): seq<Event>
    decreases items, 1
  {
    if items == [] then [] else Events(items[0]) + ItemEvents(items[1..])
  }

  /** A repeated key is met before its value is read. */
  function OneMemberEvents(m: Member, seen: set<Bytes>): seq<Event>
    decreases m, 1
  {
    if m.key in seen then [Fault] + Events(m.value) else Events(m.value)
  }

  function MemberEvents(members: seq<Member>, seen: set<Bytes>): seq<Event>
    decreases members, 1
  {
    if members == [] then []
    else OneMemberEvents(members[0], seen) + MemberEvents(members[1..], seen + {members[0].key})
  }

  /** The nodes met before the first fault: all of them when there is none. */
  function NodesBeforeFault(es: seq<Event>): nat {
    if es == [] || es[0] == Fault then 0 else 1 + NodesBeforeFault(es[1..])
  }

  lemma {:induction false} FaultSplit(a: seq<Event>, b: seq<Event>)
    ensures NodesBeforeFault(a + b) == if Fault in a then NodesBeforeFault(a) else |a| + NodesBeforeFault(b)
    ensures NodesBeforeFault(a) <= |a|
  {
    if a == [] {
      assert a + b == b;
    } else {
      assert (a + b)[1..] == a[1..] + b;
      FaultSplit(a[1..], b);
      HeadAndTail(a);
    }
  }

  // ---- events tell clean documents and node counts ----

  lemma {:induction false} EventsOfJson(j: Json)
    ensures Fault in Events(j) <==> !Clean(j)
    ensures Clean(j) ==> |Events(j)| == NodeCount(j)
    decreases j, 0
  {
    match j
    case Array(items) =>
      EventsOfItems(items);
    case Object(members) =>
      EventsOfMembers(members, {});
    case _ =>
  }

  lemma {:induction false} EventsOfItems(items: seq<Json>)
    ensures Fault in ItemEvents(items) <==> !(forall i :: 0 <= i < |items| ==> Clean(items[i]))
    ensures Fault !in ItemEvents(items) ==> |ItemEvents(items)| == ItemNodes(items)
    decreases items, 1
  {
    if items != [] {
      EventsOfJson(items[0]);
      EventsOfItems(items[1..]);
      HeadAndTail(items);
    }
  }

  /** Members that repeat neither each other's keys nor the ones already seen. */
  predicate FreshMembers(members: seq<Member>, seen: set<Bytes>) {
    && DistinctKeys(members)
    && (forall i :: 0 <= i < |members| ==> members[i].key !in seen)
    && (forall i :: 0 <= i < |members| ==> Clean(members[i].value))
  }

  lemma FreshMembersCons(members: seq<Member>, seen: set<Bytes>)
    requires members != []
    ensures FreshMembers(members, seen)
        <==> members[0].key !in seen && Clean(members[0].value) && FreshMembers(members[1..], seen + {members[0].key})
  {
  }

  lemma {:induction false} EventsOfMembers(members: seq<Member>, seen: set<Bytes>)
    ensures Fault in MemberEvents(members, seen) <==> !FreshMembers(members, seen)
    ensures Fault !in MemberEvents(members, seen) ==> |MemberEvents(members, seen)| == MemberNodes(members)
    decreases members, 1
  {
    if members != [] {
      EventsOfJson(members[0].value);
      EventsOfMembers(members[1..], seen + {members[0].key});
      FreshMembersCons(members, seen);
    }
  }

  // ---- the value a clean document stands for ----

  function ValueOf(j: Json): Value
    decreases j, 0
  {
    match j
    case Null => VNull
    case Bool(b) => VBool(b)
    case Integer(n) => VInteger(n)
    case Float(_, bits) => VFloat(bits)
    case Text(s) => VText(s)
    case Array(items) => VArray(ItemValues(items))
    case Object(members) => VObject(MemberValues(members))
  }

  function ItemValues(items: seq<Json>): seq<Value>
    decreases items, 1
  {
    if items == [] then [] else ItemValues(items[..|items| - 1]) + [ValueOf(items[|items| - 1])]
  }

  function MemberValues(members: seq<Member>): map<Bytes, Value>
    decreases members, 1
  {
    if members == [] then map[]
    else
      var last := members[|members| - 1];
      MemberValues(members[..|members| - 1])[last.key := ValueOf(last.value)]
  }

  /** A value stands for a document: scalars are themselves, items keep their number and order, and an object
      has exactly its members, each key with its value. */
  ghost predicate Denotes(v: Value, j: Json)
    decreases j
  {
    match j
    case Null => v == VNull
    case Bool(b) => v == VBool(b)
    case Integer(n) => v == VInteger(n)
    case Float(_, bits) => v == VFloat(bits)
    case Text(s) => v == VText(s)
    case Array(items) =>
      v.VArray? && |v.items| == |items| && forall i :: 0 <= i < |items| ==> Denotes(v.items[i], items[i])
    case Object(members) =>
      && v.VObject?
      && (forall k :: k in v.members <==> exists i :: 0 <= i < |members| && members[i].key == k)
      && forall i :: 0 <= i < |members| ==>
           members[i].key in v.members && Denotes(v.members[members[i].key], members[i].value)
  }

  lemma {:induction false} ItemValuesExact(items: seq<Json>)
    ensures |ItemValues(items)| == |items|
    ensures forall i :: 0 <= i < |items| ==> ItemValues(items)[i] == ValueOf(items[i])
  {
    if items != [] {
      ItemValuesExact(items[..|items| - 1]);
    }
  }

  /** The object has the member's key, with its value. */
  predicate Holds(rebuilt: map<Bytes, Value>, m: Member) {
    m.key in rebuilt && rebuilt[m.key] == ValueOf(m.value)
  }

  lemma {:induction false} MemberKeys(members: seq<Member>)
    ensures forall k :: k in MemberValues(members) ==> exists i :: 0 <= i < |members| && members[i].key == k
  {
    if members != [] {
      var front := members[..|members| - 1];
      MemberKeys(front);
      forall k | k in MemberValues(members)
        ensures exists i :: 0 <= i < |members| && members[i].key == k
      {
        if k in MemberValues(front) {
          var i :| 0 <= i < |front| && front[i].key == k;
          assert members[i].key == k;
        } else {
          assert members[|members| - 1].key == k;
        }
      }
    }
  }

  /** No member of an object without repeats is lost: each key has its value, and there are no others. */
  lemma {:induction false} NoMemberLost(members: seq<Member>)
    requires DistinctKeys(members)
    ensures |MemberValues(members)| == |members|
    ensures forall i :: 0 <= i < |members| ==> Holds(MemberValues(members), members[i])
  {
    if members != [] {
      var front, last := members[..|members| - 1], members[|members| - 1];
      var m := MemberValues(front);
      NoMemberLost(front);
      MemberKeys(front);
      assert last.key !in m;
      forall i | 0 <= i < |members|
        ensures Holds(m[last.key := ValueOf(last.value)], members[i])
      {
        if i < |front| {
          assert front[i] == members[i] && Holds(m, front[i]);
        }
      }
    }
  }

  /** The value of a clean document stands for it. */
  lemma {:induction false} ValueDenotes(j: Json)
    requires Clean(j)
    ensures Denotes(ValueOf(j), j)
    decreases j
  {
    match j {
      case Array(items) =>
        ItemValuesExact(items);
        forall i | 0 <= i < |items|
          ensures Denotes(ValueOf(items[i]), items[i])
        {
          ValueDenotes(items[i]);
        }
      case Object(members) =>
        NoMemberLost(members);
        MemberKeys(members);
        forall i | 0 <= i < |members|
          ensures Holds(MemberValues(members), members[i]) && Denotes(ValueOf(members[i].value), members[i].value)
        {
          ValueDenotes(members[i].value);
        }
      case _ =>
    }
  }

  /** A document stands for one value only. */
  lemma {:induction false} DenotesOne(v: Value, w: Value, j: Json)
    requires Denotes(v, j) && Denotes(w, j)
    ensures v == w
    decreases j
  {
    match j {
      case Array(items) =>
        forall i | 0 <= i < |items|
          ensures v.items[i] == w.items[i]
        {
          DenotesOne(v.items[i], w.items[i], items[i]);
        }
        assert v.items == w.items;
      case Object(members) =>
        forall k | k in v.members
          ensures k in w.members && v.members[k] == w.members[k]
        {
          var i :| 0 <= i < |members| && members[i].key == k;
          DenotesOne(v.members[k], w.members[k], members[i].value);
        }
        assert v.members == w.members;
      case _ =>
    }
  }

  /** Containers count themselves and what they hold. */
  lemma NodeCountExample(s: Bytes)
    ensures NodeCount(Array([Null, Object([Member(s, Bool(true))]), Array([])])) == 5
  {
    var members := [Member(s, Bool(true))];
    var items := [Null, Object(members), Array([])];
    assert members[1..] == [] && MemberNodes(members) == 1;
    assert NodeCount(Object(members)) == 2 && NodeCount(Array([])) == 1;
    assert items[1..] == [Object(members), Array([])] && items[1..][1..] == [Array([])] && [Array([])][1..] == [];
    assert ItemNodes(items[1..][1..]) == 1;
    assert ItemNodes(items[1..]) == 3;
    assert ItemNodes(items) == 4;
  }

  // ---- the visitor ----

  /** Where the reading stands after meeting `events` from counter `used`, when it did not stop. */
  predicate WithinLimit(used: nat, events: seq<Event>) {
    Fault !in events && used + |events| <= MAX_JSON_NODES
  }

  /** The counter after the reading stopped: at the fault, or at the first node over the limit. */
  function StoppedAt(used: nat, events: seq<Event>): nat {
    if used + NodesBeforeFault(events) > MAX_JSON_NODES then MAX_JSON_NODES + 1
    else used + NodesBeforeFault(events)
  }

  /** The counter and the outcome of a reading. */
  ghost predicate Reading(used: nat, events: seq<Event>, ok: bool, nodes: nat) {
    (ok <==> WithinLimit(used, events)) &&
    nodes == if ok then used + |events| else StoppedAt(used, events)
  }

  lemma StopInFirst(used: nat, a: seq<Event>, b: seq<Event>, nodes: nat)
    requires used <= MAX_JSON_NODES && Reading(used, a, false, nodes)
    ensures Reading(used, a + b, false, nodes)
  {
    FaultSplit(a, b);
    FaultSplit(a, []);
    assert a + [] == a;
  }

  lemma ContinueInSecond(used: nat, a: seq<Event>, b: seq<Event>, ok: bool, nodes: nat)
    requires Reading(used, a, true, used + |a|) && Reading(used + |a|, b, ok, nodes)
    ensures Reading(used, a + b, ok, nodes)
  {
    FaultSplit(a, b);
  }

  /** One more part `here` is read after `before`, with `later` still to come. */
  lemma ReadPart(start: nat, before: seq<Event>, here: seq<Event>, later: seq<Event>, used: nat, ok: bool, nodes: nat)
    requires Reading(start, before, true, used) && Reading(used, here, ok, nodes)
    ensures ok ==> Reading(start, before + here, true, nodes)
    ensures !ok ==> Reading(start, before + (here + later), false, nodes)
  {
    ContinueInSecond(start, before, here, ok, nodes);
    if !ok {
      StopInFirst(start, before + here, later, nodes);
      assert before + here + later == before + (here + later);
    }
  }

  lemma Regroup<T>(a: seq<T>, b: seq<T>, c: seq<T>)
    ensures a + b + c == a + (b + c)
  {
  }

  lemma FrontOf<T>(s: seq<T>, i: nat)
    requires i < |s|
    ensures s[..i + 1][..i] == s[..i] && s[..i + 1][i] == s[i] && s[i..][0] == s[i] && s[i..][1..] == s[i + 1..]
  {
  }

  /** The shared `Cell` counter with the visitor's methods. */
  class Visitor {
    var nodes: nat

    constructor ()
      ensures nodes == 0
    {
      nodes := 0;
    }

    method Charge() returns (ok: bool)
      requires nodes <= MAX_JSON_NODES
      modifies this
      ensures Reading(old(nodes), [Node], ok, nodes)
    {
      var used := if nodes == USIZE_MAX then USIZE_MAX else nodes + 1;
      nodes := used;
      ok := used <= MAX_JSON_NODES;
      assert [Node][1..] == [];
    }

    /** The visit of one value. */
    method Visit(j: Json) returns (r: Option<Value>)
      requires nodes <= MAX_JSON_NODES
      modifies this
      ensures Reading(old(nodes), Events(j), r.Some?, nodes)
      ensures r.Some? ==> r.value == ValueOf(j)
      decreases j, 1
    {
      match j {
        case Array(items) =>
          r := VisitSeq(j, items);
        case Object(members) =>
          r := VisitMap(j, members);
        case Float(finite, bits) =>
          var ok := Charge();
          if !ok {
            if !finite {
              StopInFirst(old(nodes), [Node], [Fault], nodes);
              assert [Node] + [Fault] == [Node, Fault];
            }
            return None;
          }
          if !finite {
            ContinueInSecond(old(nodes), [Node], [Fault], false, nodes);
            assert [Node] + [Fault] == [Node, Fault];
            return None;
          }
          return Some(VFloat(bits));
        case _ =>
          var ok := Charge();
          return if ok then Some(ValueOf(j)) else None;
      }
    }

    method VisitSeq(j: Json, items: seq<Json>) returns (r: Option<Value>)
      requires j == Array(items) && nodes <= MAX_JSON_NODES
      modifies this
      ensures Reading(old(nodes), Events(j), r.Some?, nodes)
      ensures r.Some? ==> r.value == ValueOf(j)
      decreases j, 0
    {
      ghost var start := nodes;
      var ok := Charge();
      if !ok {
        StopInFirst(start, [Node], ItemEvents(items), nodes);
        return None;
      }
      var out: seq<Value> := [];
      ghost var before: seq<Event> := [Node];
      var i := 0;
      while i < |items|
        invariant 0 <= i <= |items| && nodes <= MAX_JSON_NODES
        invariant before + ItemEvents(items[i..]) == Events(j)
        invariant Reading(start, before, true, nodes)
        invariant out == ItemValues(items[..i])
      {
        ghost var used := nodes;
        ghost var here, later := Events(items[i]), ItemEvents(items[i + 1..]);
        assert items[i..][1..] == items[i + 1..];
        var elem := Visit(items[i]);
        ReadPart(start, before, here, later, used, elem.Some?, nodes);
        if elem.None? {
          return None;
        }
        Regroup(before, here, later);
        before := before + here;
        FrontOf(items, i);
        out := out + [elem.value];
        i := i + 1;
      }
      assert before + [] == before;
      assert items[..i] == items;
      return Some(VArray(out));
    }

    method VisitMap(j: Json, members: seq<Member>) returns (r: Option<Value>)
      requires j == Object(members) && nodes <= MAX_JSON_NODES
      modifies this
      ensures Reading(old(nodes), Events(j), r.Some?, nodes)
      ensures r.Some? ==> r.value == ValueOf(j)
      decreases j, 0
    {
      ghost var start := nodes;
      var ok := Charge();
      if !ok {
        StopInFirst(start, [Node], MemberEvents(members, {}), nodes);
        return None;
      }
      var out: map<Bytes, Value> := map[];
      ghost var before: seq<Event> := [Node];
      ghost var seen: set<Bytes> := {};
      assert members[0..] == members;
      var i := 0;
      while i < |members|
        invariant 0 <= i <= |members| && nodes <= MAX_JSON_NODES
        invariant before + MemberEvents(members[i..], seen) == Events(j)
        invariant Reading(start, before, true, nodes)
        invariant out == MemberValues(members[..i]) && seen == out.Keys
      {
        ghost var used := nodes;
        ghost var key := members[i].key;
        ghost var here, later := OneMemberEvents(members[i], seen), MemberEvents(members[i + 1..], seen + {key});
        assert members[i..][0] == members[i] && members[i..][1..] == members[i + 1..];
        var extended := VisitMember(members[i], out);
        ReadPart(start, before, here, later, used, extended.Some?, nodes);
        if extended.None? {
          return None;
        }
        Regroup(before, here, later);
        before := before + here;
        FrontOf(members, i);
        out, seen := extended.value, seen + {key};
        i := i + 1;
      }
      assert before + [] == before;
      assert members[..i] == members;
      return Some(VObject(out));
    }

    /** One turn of the map loop: the repeat check, the value, the insertion. */
    method VisitMember(m: Member, out: map<Bytes, Value>) returns (r: Option<map<Bytes, Value>>)
      requires nodes <= MAX_JSON_NODES
      modifies this
      ensures Reading(old(nodes), OneMemberEvents(m, out.Keys), r.Some?, nodes)
      ensures r.Some? ==> r.value == out[m.key := ValueOf(m.value)] && r.value.Keys == out.Keys + {m.key}
      decreases m, 0
    {
      if m.key in out {
        return None;
      }
      var value := Visit(m.value);
      if value.None? {
        return None;
      }
      return Some(out[m.key := value.value]);
    }
  }

  datatype Outcome = Parsed(value: Value) | TooManyNodes | Malformed

  /** `parse_strict`, for a document and whether anything but white space follows it: success is exactly a
      clean document within the limit with nothing behind it, and a failure blames the budget exactly when the
      first `MAX_JSON_NODES + 1` nodes come before the first fault. */
  method ParseStrict(j: Json, trailing: bool) returns (r: Outcome, ghost used: nat)
    ensures r.Parsed? <==> Clean(j) && NodeCount(j) <= MAX_JSON_NODES && !trailing
    ensures r.Parsed? ==> r.value == ValueOf(j) && Denotes(r.value, j)
    ensures r.Parsed? ==> used == NodeCount(j)
    ensures r.TooManyNodes? <==> NodesBeforeFault(Events(j)) > MAX_JSON_NODES
  {
    var visitor := new Visitor();
    var value := visitor.Visit(j);
    EventsOfJson(j);
    FaultSplit(Events(j), []);
    assert Events(j) + [] == Events(j);
    used := visitor.nodes;
    if value.Some? {
      ValueDenotes(j);
      r := if trailing then Malformed else Parsed(value.value);
    } else {
      r := if visitor.nodes > MAX_JSON_NODES then TooManyNodes else Malformed;
    }
  }
}
