/** The array case of `MergeValuesWithAPIModel` in
    `pkg/aks-engine/engine/transform/apimodel_merger.go`: values are assigned to elements of one
    JSON array, which grows as needed, in the random order in which Go ranges over a map. */
module ArrayMerge {
  import opened Basics
  import opened Text
  import opened SetFlags

  /** What the entry of one key asks for. Different keys may spell the same index. */
  datatype Assignment = Assignment(index: int, value: Json)

  /** What is found at the array's path after some assignments, unless Go has panicked. */
  datatype Outcome = Panicked | Slot(json: Json)

  function Count(slot: Json): nat {
    if slot.Array? then |slot.elems| else 0
  }

  function Nulls(n: nat): seq<Json> {
    seq(n, _ => Null)
  }

  /** Gabs appends to an array, starts one where there is nothing, and makes any other value the
      first element of a new one. */
  function Append(slot: Json, value: Json): Json {
    match slot
    case Array(elems) => Array(elems + [value])
    case Null => Array([value])
    case other => Array([other, value])
  }

  /** The slot is an array already, or there is nothing there (or null, which looks the same). */
  predicate ArrayOrNothing(slot: Json) {
    slot.Array? || slot.Null?
  }

  function Elements(slot: Json): seq<Json> {
    match slot
    case Array(elems) => elems
    case Null => []
    case other => [other]
  }

  /** How many nulls are appended before element `index` is set. */
  function Missing(slot: Json, index: nat): nat {
    if index < Count(slot) then 0 else index + 1 - Count(slot)
  }

  /** The elements after one assignment. */
  function Assigned(slot: Json, index: nat, value: Json): seq<Json> {
    (Elements(slot) + Nulls(Missing(slot, index)))[index := value]
  }

  /** A negative index is out of range for Go when the slot holds an array, and ignored otherwise. */
  function After(slot: Json, a: Assignment): Outcome {
    if a.index >= 0 then Slot(Array(Assigned(slot, a.index, a.value)))
    else if slot.Array? then Panicked
    else Slot(slot)
  }

  /** A document, reduced to the value found at the array's path. */
  class Document {
    var slot: Json

    constructor (slot: Json)
      ensures this.slot == slot
    {
      this.slot := slot;
    }

    /** The growing loop and the assignment. */
    method Assign(index: int, value: Json) returns (panicked: bool)
      modifies this
      ensures panicked <==> index < 0 && old(slot).Array?
      ensures index < 0 ==> slot == old(slot)
      ensures index >= 0 ==> slot == Array(Assigned(old(slot), index, value))
    {
      var count := Count(slot);
      var i := count;
      while i <= index
        invariant count <= i <= if index < count then count else index + 1
        invariant slot == if i == count then old(slot) else Array(Elements(old(slot)) + Nulls(i - count))
      {
        slot := Append(slot, Null);
        i := i + 1;
        assert slot.elems == Elements(old(slot)) + Nulls(i - count);
      }
      panicked := slot.Array? && index < 0;
      if slot.Array? && 0 <= index < |slot.elems| {
        assert Elements(old(slot)) + Nulls(0) == Elements(old(slot));
        slot := Array(slot.elems[index := value]);
      }
    }

    /** All assignments to the array, in an order that Go picks; a panic ends them. On an array or
        nothing, without negative indices and clashes, the result is the merge in any order. */
    method AssignAll(m: map<string, Assignment>) returns (panicked: bool, ghost order: seq<string>)
      modifies this
      ensures Lists(order, m)
      ensures AfterAll(Slot(old(slot)), order, m) == if panicked then Panicked else Slot(slot)
      ensures old(slot).Array? ==> (panicked <==> exists k | k in m :: m[k].index < 0)
      ensures ArrayOrNothing(old(slot)) && NoneNegative(m) && !Clash(m) && m != map[] ==>
                !panicked && slot.Array? && IsMerge(old(slot), m, slot.elems)
    {
      var todo := m.Keys;
      panicked, order := false, [];
      while todo != {} && !panicked
        invariant todo <= m.Keys && NoDuplicates(order)
        invariant forall k :: k in order <==> k in m && k !in todo
        invariant AfterAll(Slot(old(slot)), order, m) == if panicked then Panicked else Slot(slot)
      {
        var key :| key in todo;
        todo := todo - {key};
        panicked := Assign(m[key].index, m[key].value);
        AfterSnoc(Slot(old(slot)), order, key, m);
        order := order + [key];
      }
      ghost var rest := SomeOrder(todo);
      PanickedStays(rest, m);
      AfterConcat(Slot(old(slot)), order, rest, m);
      HasMember(rest);
      assert todo == {} ==> order + rest == order;
      NoDuplicatesConcat(order, rest);
      order := order + rest;
      AssignAllOutcome(old(slot), order, m);
    }
  }

  // ---------------------------------------------------------------------------------------
  // Orders
  // ---------------------------------------------------------------------------------------

  /** An order in which Go may range over the map. */
  ghost predicate Lists(order: seq<string>, m: map<string, Assignment>) {
    NoDuplicates(order) && forall k :: k in order <==> k in m
  }

  function AfterAll(start: Outcome, order: seq<string>, m: map<string, Assignment>): Outcome
    requires forall k | k in order :: k in m
  {
    if order == [] then start
    else
      var before := AfterAll(start, order[..|order| - 1], m);
      if before.Panicked? then Panicked else After(before.json, m[order[|order| - 1]])
  }

  lemma AfterSnoc(start: Outcome, order: seq<string>, key: string, m: map<string, Assignment>)
    requires key in m && forall k | k in order :: k in m
    ensures AfterAll(start, order + [key], m) ==
            var before := AfterAll(start, order, m);
            if before.Panicked? then Panicked else After(before.json, m[key])
  {
    assert (order + [key])[..|order|] == order;
  }

  lemma {:induction false} AfterConcat(start: Outcome, a: seq<string>, b: seq<string>, m: map<string, Assignment>)
    requires (forall k | k in a :: k in m) && forall k | k in b :: k in m
    ensures AfterAll(start, a + b, m) == AfterAll(AfterAll(start, a, m), b, m)
  {
    if b == [] {
      assert a + b == a;
    } else {
      var front, last := b[..|b| - 1], b[|b| - 1];
      assert a + b == a + front + [last] && b == front + [last];
      AfterConcat(start, a, front, m);
      AfterSnoc(start, a + front, last, m);
    }
  }

  lemma {:induction false} PanickedStays(order: seq<string>, m: map<string, Assignment>)
    requires forall k | k in order :: k in m
    ensures AfterAll(Panicked, order, m) == Panicked
  {
    if order != [] {
      PanickedStays(order[..|order| - 1], m);
    }
  }

  /** An order of the map that starts with some of its keys, and one that ends with a key. */
  lemma OrderFrom(first: seq<string>, m: map<string, Assignment>) returns (order: seq<string>)
    requires NoDuplicates(first) && forall k | k in first :: k in m
    ensures Lists(order, m) && first <= order
    ensures forall k :: k in order[|first|..] <==> k in m && k !in first
  {
    var rest := SomeOrder(m.Keys - set k | k in first);
    NoDuplicatesConcat(first, rest);
    order := first + rest;
    assert order[|first|..] == rest;
  }

  lemma OrderTo(last: string, m: map<string, Assignment>) returns (order: seq<string>)
    requires last in m
    ensures Lists(order, m) && order != [] && order[|order| - 1] == last
  {
    var rest := SomeOrder(m.Keys - {last});
    order := rest + [last];
  }

  // ---------------------------------------------------------------------------------------
  // The merge
  // ---------------------------------------------------------------------------------------

  predicate NoneNegative(m: map<string, Assignment>) {
    forall k | k in m :: m[k].index >= 0
  }

  predicate AllNegative(m: map<string, Assignment>) {
    forall k | k in m :: m[k].index < 0
  }

  /** Two keys give one index different values. */
  predicate Clash(m: map<string, Assignment>) {
    exists k, l | k in m && l in m :: m[k].index == m[l].index && m[k].value != m[l].value
  }

  predicate AllSame(m: map<string, Assignment>) {
    forall k, l | k in m && l in m :: m[k] == m[l]
  }

  /** What the merged array has to be, without reference to any order: long enough for every
      index and no longer, assigned elements in place, other old elements kept, the rest null. */
  ghost predicate IsMerge(slot: Json, m: map<string, Assignment>, result: seq<Json>) {
    var before := Elements(slot);
    && |result| >= |before|
    && (forall k | k in m :: 0 <= m[k].index < |result| && result[m[k].index] == m[k].value)
    && (|result| == |before| || exists k | k in m :: |result| == m[k].index + 1)
    && (forall i | 0 <= i < |result| && (forall k | k in m :: m[k].index != i) ::
          result[i] == if i < |before| then before[i] else Null)
  }

  lemma MergeIsUnique(slot: Json, m: map<string, Assignment>, r: seq<Json>, r': seq<Json>)
    requires IsMerge(slot, m, r) && IsMerge(slot, m, r')
    ensures r == r'
  {
    assert |r| == |r'|;
    forall i | 0 <= i < |r| ensures r[i] == r'[i] {
      if k :| k in m && m[k].index == i {
        assert r[i] == m[k].value == r'[i];
      }
    }
  }

  function Restrict(m: map<string, Assignment>, order: seq<string>): map<string, Assignment> {
    map k | k in m && k in order :: m[k]
  }

  lemma AssignedShape(slot: Json, index: nat, value: Json)
    requires ArrayOrNothing(slot)
    ensures var before, result := Elements(slot), Assigned(slot, index, value);
            && |result| == (if index < |before| then |before| else index + 1) && result[index] == value
            && forall i | 0 <= i < |result| && i != index :: result[i] == if i < |before| then before[i] else Null
  {}

  /** One more assignment to a merged array. */
  lemma AssignMerges(slot: Json, done: map<string, Assignment>, elems: seq<Json>, result: seq<Json>, key: string, a: Assignment)
    requires IsMerge(slot, done, elems) && key !in done && a.index >= 0
    requires forall k | k in done && done[k].index == a.index :: done[k].value == a.value
    requires |result| == (if a.index < |elems| then |elems| else a.index + 1) && result[a.index] == a.value
    requires forall i | 0 <= i < |result| && i != a.index :: result[i] == if i < |elems| then elems[i] else Null
    ensures IsMerge(slot, done[key := a], result)
  {
    var all := done[key := a];
    assert key in all && all[key] == a;
    assert forall k | k in done :: k in all && all[k] == done[k];
    if |result| == |elems| && |elems| > |Elements(slot)| {
      var k :| k in done && |elems| == done[k].index + 1;
      assert k in all && |result| == all[k].index + 1;
    }
  }

  lemma NextMerges(slot: Json, done: map<string, Assignment>, prior: Json, key: string, a: Assignment)
    requires ArrayOrNothing(prior) && IsMerge(slot, done, Elements(prior)) && key !in done && a.index >= 0
    requires forall k | k in done && done[k].index == a.index :: done[k].value == a.value
    ensures IsMerge(slot, done[key := a], Assigned(prior, a.index, a.value))
  {
    AssignedShape(prior, a.index, a.value);
    AssignMerges(slot, done, Elements(prior), Assigned(prior, a.index, a.value), key, a);
  }

  /** In every order, a prefix of the assignments gives its merge. */
  lemma {:induction false} PrefixMerges(slot: Json, order: seq<string>, m: map<string, Assignment>)
    requires ArrayOrNothing(slot) && NoDuplicates(order) && forall k | k in order :: k in m
    requires NoneNegative(m) && !Clash(m)
    ensures var end := AfterAll(Slot(slot), order, m);
            end.Slot? && ArrayOrNothing(end.json) && IsMerge(slot, Restrict(m, order), Elements(end.json))
    ensures order != [] ==> AfterAll(Slot(slot), order, m).json.Array?
  {
    if order != [] {
      var front, last := order[..|order| - 1], order[|order| - 1];
      assert order == front + [last];
      PrefixMerges(slot, front, m);
      var prior := AfterAll(Slot(slot), front, m).json;
      RestrictSnoc(m, front, last);
      NextMerges(slot, Restrict(m, front), prior, last, m[last]);
    }
  }

  lemma RestrictSnoc(m: map<string, Assignment>, front: seq<string>, last: string)
    requires last in m
    ensures Restrict(m, front + [last]) == Restrict(m, front)[last := m[last]]
  {}

  /** Every order of the keys gives the merge, when no index is negative and no two keys clash. */
  lemma AnyOrderMerges(slot: Json, order: seq<string>, m: map<string, Assignment>)
    requires ArrayOrNothing(slot) && Lists(order, m) && m != map[]
    requires NoneNegative(m) && !Clash(m)
    ensures var end := AfterAll(Slot(slot), order, m);
            end.Slot? && end.json.Array? && IsMerge(slot, m, end.json.elems)
  {
    assert m.Keys != {};
    PrefixMerges(slot, order, m);
    assert Restrict(m, order) == m;
  }

  // ---------------------------------------------------------------------------------------
  // Panics
  // ---------------------------------------------------------------------------------------

  /** On an array, whatever the order, Go panics exactly when some index is negative. */
  lemma {:induction false} ArrayPanicsIff(elems: seq<Json>, order: seq<string>, m: map<string, Assignment>)
    requires forall k | k in order :: k in m
    ensures var end := AfterAll(Slot(Array(elems)), order, m);
            (end.Panicked? <==> exists k | k in order :: m[k].index < 0) && (end.Slot? ==> end.json.Array?)
  {
    if order != [] {
      var front, last := order[..|order| - 1], order[|order| - 1];
      assert order == front + [last];
      ArrayPanicsIff(elems, front, m);
      assert forall k :: k in order <==> k in front || k == last;
    }
  }

  /** Negative indices alone leave what is no array as it is. */
  lemma {:induction false} NegativesAreIgnored(slot: Json, order: seq<string>, m: map<string, Assignment>)
    requires !slot.Array? && forall k | k in order :: k in m && m[k].index < 0
    ensures AfterAll(Slot(slot), order, m) == Slot(slot)
  {
    if order != [] {
      NegativesAreIgnored(slot, order[..|order| - 1], m);
    }
  }

  lemma AssignAllOutcome(slot: Json, order: seq<string>, m: map<string, Assignment>)
    requires Lists(order, m)
    ensures slot.Array? ==> (AfterAll(Slot(slot), order, m).Panicked? <==> exists k | k in m :: m[k].index < 0)
    ensures ArrayOrNothing(slot) && NoneNegative(m) && !Clash(m) && m != map[] ==>
              var end := AfterAll(Slot(slot), order, m);
              end.Slot? && end.json.Array? && IsMerge(slot, m, end.json.elems)
  {
    if slot.Array? {
      ArrayPanicsIff(slot.elems, order, m);
    }
    if ArrayOrNothing(slot) && NoneNegative(m) && !Clash(m) && m != map[] {
      AnyOrderMerges(slot, order, m);
    }
  }

  /** Without negative indices nothing panics, and the last assignment of an order shows. */
  lemma {:induction false} LastAssignmentShows(slot: Json, order: seq<string>, m: map<string, Assignment>)
    requires forall k | k in order :: k in m && m[k].index >= 0
    ensures var end := AfterAll(Slot(slot), order, m);
            end.Slot? &&
            (order != [] ==>
              var a := m[order[|order| - 1]];
              end.json.Array? && a.index < |end.json.elems| && end.json.elems[a.index] == a.value)
  {
    if order != [] {
      LastAssignmentShows(slot, order[..|order| - 1], m);
    }
  }

  // ---------------------------------------------------------------------------------------
  // When the order does not matter
  // ---------------------------------------------------------------------------------------

  ghost predicate OrderFree(slot: Json, m: map<string, Assignment>) {
    forall o, o' | Lists(o, m) && Lists(o', m) :: AfterAll(Slot(slot), o, m) == AfterAll(Slot(slot), o', m)
  }

  /** The exact condition, by what is found at the path. */
  predicate OrderDoesNotShow(slot: Json, m: map<string, Assignment>) {
    match slot
    case Array(_) => !NoneNegative(m) || !Clash(m)
    case Null => AllNegative(m) || (NoneNegative(m) && !Clash(m))
    case _ => AllNegative(m) || (NoneNegative(m) && AllSame(m))
  }

  /** The result is the same in every iteration order if and only if that condition holds. */
  lemma OrderFreeIff(slot: Json, m: map<string, Assignment>)
    ensures OrderFree(slot, m) <==> OrderDoesNotShow(slot, m)
  {
    if OrderDoesNotShow(slot, m) {
      forall o, o' | Lists(o, m) && Lists(o', m)
        ensures AfterAll(Slot(slot), o, m) == AfterAll(Slot(slot), o', m)
      {
        OrdersAgree(slot, o, o', m);
      }
    } else if !NoneNegative(m) {
      MixedSignsDiffer(slot, m);
    } else if Clash(m) {
      ClashDiffers(slot, m);
    } else {
      var k, l :| k in m && l in m && m[k] != m[l];
      IndicesDiffer(slot, m, k, l);
    }
  }

  lemma NothingToOrder(order: seq<string>, m: map<string, Assignment>)
    requires Lists(order, m) && m == map[]
    ensures order == []
  {
    HasMember(order);
  }

  lemma OrdersAgree(slot: Json, o: seq<string>, o': seq<string>, m: map<string, Assignment>)
    requires Lists(o, m) && Lists(o', m) && OrderDoesNotShow(slot, m)
    ensures AfterAll(Slot(slot), o, m) == AfterAll(Slot(slot), o', m)
  {
    if m == map[] {
      NothingToOrder(o, m);
      NothingToOrder(o', m);
    } else if slot.Array? && !NoneNegative(m) {
      ArrayPanicsIff(slot.elems, o, m);
      ArrayPanicsIff(slot.elems, o', m);
    } else if AllNegative(m) && !slot.Array? {
      NegativesAreIgnored(slot, o, m);
      NegativesAreIgnored(slot, o', m);
    } else if ArrayOrNothing(slot) {
      AnyOrderMerges(slot, o, m);
      AnyOrderMerges(slot, o', m);
      MergeIsUnique(slot, m, AfterAll(Slot(slot), o, m).json.elems, AfterAll(Slot(slot), o', m).json.elems);
    } else {
      assert m.Keys != {};
      var k :| k in m;
      SameAgain(slot, o, m, m[k]);
      SameAgain(slot, o', m, m[k]);
    }
  }

  /** Repeating one assignment changes nothing. */
  lemma {:induction false} SameAgain(slot: Json, order: seq<string>, m: map<string, Assignment>, a: Assignment)
    requires !ArrayOrNothing(slot) && a.index >= 0
    requires (forall k | k in order :: k in m && m[k] == a) && (order == [] ==> exists k :: k in m && k in order)
    ensures AfterAll(Slot(slot), order, m) == After(slot, a)
  {
    var front := order[..|order| - 1];
    assert m[order[|order| - 1]] == a;
    if front != [] {
      SameAgain(slot, front, m, a);
      var once := Assigned(slot, a.index, a.value);
      assert Assigned(Array(once), a.index, a.value) == once;
    }
  }

  /** A negative index among others on what is no array: ignored when it comes first, a panic
      when it comes after an array has been made. */
  lemma MixedSignsDiffer(slot: Json, m: map<string, Assignment>)
    requires !slot.Array? && !NoneNegative(m) && !AllNegative(m)
    ensures !OrderFree(slot, m)
  {
    var o := PanickingOrder(slot, m);
    var o' := SilentOrder(slot, m);
    assert AfterAll(Slot(slot), o, m) != AfterAll(Slot(slot), o', m);
  }

  lemma PanickingOrder(slot: Json, m: map<string, Assignment>) returns (order: seq<string>)
    requires !NoneNegative(m) && !AllNegative(m)
    ensures Lists(order, m) && AfterAll(Slot(slot), order, m).Panicked?
  {
    var neg :| neg in m && m[neg].index < 0;
    var pos :| pos in m && m[pos].index >= 0;
    order := OrderFrom([pos], m);
    var rest := order[1..];
    assert order == [pos] + rest && neg in rest;
    AfterConcat(Slot(slot), [pos], rest, m);
    assert [pos][..0] == [];
    ArrayPanicsIff(Assigned(slot, m[pos].index, m[pos].value), rest, m);
  }

  lemma SilentOrder(slot: Json, m: map<string, Assignment>) returns (order: seq<string>)
    requires !slot.Array?
    ensures Lists(order, m) && AfterAll(Slot(slot), order, m).Slot?
  {
    var negatives := SomeOrder(set k | k in m && m[k].index < 0);
    order := OrderFrom(negatives, m);
    var others := order[|negatives|..];
    assert order == negatives + others;
    AfterConcat(Slot(slot), negatives, others, m);
    NegativesAreIgnored(slot, negatives, m);
    LastAssignmentShows(slot, others, m);
  }

  /** Two spellings of one index: the one that comes last wins. */
  lemma ClashDiffers(slot: Json, m: map<string, Assignment>)
    requires NoneNegative(m) && Clash(m)
    ensures !OrderFree(slot, m)
  {
    var k, l :| k in m && l in m && m[k].index == m[l].index && m[k].value != m[l].value;
    var o := OrderTo(k, m);
    var o' := OrderTo(l, m);
    LastAssignmentShows(slot, o, m);
    LastAssignmentShows(slot, o', m);
    assert AfterAll(Slot(slot), o, m) != AfterAll(Slot(slot), o', m);
  }

  // ---------------------------------------------------------------------------------------
  // Onto a value that is no array
  // ---------------------------------------------------------------------------------------

  lemma GreatestIndex(m: map<string, Assignment>, keys: set<string>) returns (max: string)
    requires keys != {} && keys <= m.Keys
    ensures max in keys && forall k | k in keys :: m[k].index <= m[max].index
  {
    var some :| some in keys;
    var rest := keys - {some};
    assert keys == rest + {some};
    max := some;
    if rest != {} {
      var other := GreatestIndex(m, rest);
      max := if m[other].index > m[some].index then other else some;
    }
  }

  /** An order that starts with `first`: the array is made with one element before it. */
  lemma StartWith(slot: Json, first: string, m: map<string, Assignment>) returns (order: seq<string>)
    requires !ArrayOrNothing(slot) && first in m && NoneNegative(m) && !Clash(m)
    ensures Lists(order, m)
    ensures var end := AfterAll(Slot(slot), order, m);
            end.Slot? && end.json.Array? && |end.json.elems| >= m[first].index + 2 &&
            (|end.json.elems| == m[first].index + 2 || exists k | k in m :: |end.json.elems| == m[k].index + 1)
  {
    order := OrderFrom([first], m);
    var rest := order[1..];
    assert order == [first] + rest;
    AfterConcat(Slot(slot), [first], rest, m);
    FirstMakes(slot, first, m);
    LengthFrom(Assigned(slot, m[first].index, m[first].value), rest, m);
  }

  /** A value that is no array becomes the first element of the new array, with nulls behind it. */
  lemma ValueBecomesFirst(slot: Json, index: nat, value: Json)
    requires !ArrayOrNothing(slot)
    ensures var result := Assigned(slot, index, value);
            |result| == index + 2 &&
            forall i | 0 <= i < |result| :: result[i] == if i == index then value else if i == 0 then slot else Null
  {}

  lemma FirstMakes(slot: Json, first: string, m: map<string, Assignment>)
    requires !ArrayOrNothing(slot) && first in m && m[first].index >= 0
    ensures AfterAll(Slot(slot), [first], m) == Slot(Array(Assigned(slot, m[first].index, m[first].value)))
    ensures |Assigned(slot, m[first].index, m[first].value)| == m[first].index + 2
  {
    assert [first][..0] == [];
  }

  lemma LengthFrom(made: seq<Json>, rest: seq<string>, m: map<string, Assignment>)
    requires NoneNegative(m) && !Clash(m) && NoDuplicates(rest) && forall k | k in rest :: k in m
    ensures var end := AfterAll(Slot(Array(made)), rest, m);
            end.Slot? && end.json.Array? && |end.json.elems| >= |made| &&
            (|end.json.elems| == |made| || exists k | k in m :: |end.json.elems| == m[k].index + 1)
  {
    PrefixMerges(Array(made), rest, m);
    ArrayPanicsIff(made, rest, m);
  }

  /** Starting with the greatest index gives a longer array than starting with a smaller one. */
  lemma IndicesDiffer(slot: Json, m: map<string, Assignment>, k: string, l: string)
    requires !ArrayOrNothing(slot) && NoneNegative(m) && !Clash(m)
    requires k in m && l in m && m[k] != m[l]
    ensures !OrderFree(slot, m)
  {
    var max := GreatestIndex(m, m.Keys);
    assert m[k].index != m[l].index;
    var other := if m[k].index == m[max].index then l else k;
    var o := StartWith(slot, max, m);
    var o' := StartWith(slot, other, m);
    assert |AfterAll(Slot(slot), o, m).json.elems| > |AfterAll(Slot(slot), o', m).json.elems|;
  }

  // ---------------------------------------------------------------------------------------
  // From the flags
  // ---------------------------------------------------------------------------------------

  /** The assignments to one array among the entries of all flags. */
  function Assignments(entries: map<string, APIModelValue>, name: string): map<string, Assignment> {
    map k | k in entries && entries[k].arrayValue && entries[k].arrayName == name && entries[k].arrayProperty == "" ::
      Assignment(entries[k].arrayIndex, Json.Scalar(entries[k].value))
  }

  /** The regular expression takes a key apart into an array's name and an index. */
  predicate TakesApart(arrayKey: string -> Option<ArrayKey>, key: string, name: string, index: string) {
    arrayKey(key) == Some(ArrayKey(name, index, ""))
  }

  lemma ElementEntry(name: string, index: string, value: string)
    requires ParseInt(index, INT32_LIMIT).Some?
    ensures Entry(Some(ArrayKey(name, index, "")), value)
         == Some(APIModelValue(ScalarOf(value), true, ParseInt(index, INT32_LIMIT).value, "", name))
  {}

  lemma ParseTwo(one: Pair, two: Pair)
    requires Printable([one, two], Bare)
    ensures Parse(PrintPairs([one, two], Bare)) == map[one.key := one.value][two.key := two.value]
  {
    PrintParse([one, two], Bare);
    assert SeenPairs([one, two], Bare) == [one, two];
    assert [one, two] == [one] + [two] && [one] == [] + [one];
    LastWinsSnoc([one], two);
    LastWinsSnoc([], one);
  }

  /** The assignments of two entries to one array. */
  lemma TwoAssignments(parsed: map<string, string>, entryOf: EntryMaker, name: string, k: string, l: string, i: int, j: int, v: Scalar, w: Scalar)
    requires parsed.Keys == {k, l}
    requires entryOf(k, parsed[k]) == Some(APIModelValue(v, true, i, "", name))
    requires entryOf(l, parsed[l]) == Some(APIModelValue(w, true, j, "", name))
    ensures Assignments(Entries(parsed, entryOf), name).Keys == {k, l}
    ensures Assignments(Entries(parsed, entryOf), name)[k] == Assignment(i, Json.Scalar(v))
    ensures Assignments(Entries(parsed, entryOf), name)[l] == Assignment(j, Json.Scalar(w))
  {
    assert k in Entries(parsed, entryOf) && l in Entries(parsed, entryOf);
  }

  /** What one flag with two pairs asks of the array that both keys name. */
  lemma TwoPairs(arrayKey: string -> Option<ArrayKey>, name: string, one: Pair, two: Pair, i: string, j: string)
    requires Printable([one, two], Bare) && one.key != two.key
    requires TakesApart(arrayKey, one.key, name, i) && TakesApart(arrayKey, two.key, name, j)
    requires ParseInt(i, INT32_LIMIT).Some? && ParseInt(j, INT32_LIMIT).Some?
    ensures var m := Assignments(AfterFlags(map[], [PrintPairs([one, two], Bare)], EntryOf(arrayKey)), name);
            && m.Keys == {one.key, two.key}
            && m[one.key] == Assignment(ParseInt(i, INT32_LIMIT).value, Json.Scalar(ScalarOf(one.value)))
            && m[two.key] == Assignment(ParseInt(j, INT32_LIMIT).value, Json.Scalar(ScalarOf(two.value)))
  {
    var entryOf, parsed := EntryOf(arrayKey), map[one.key := one.value][two.key := two.value];
    ParseTwo(one, two);
    AfterOneFlag(map[], PrintPairs([one, two], Bare), entryOf);
    assert map[] + Entries(parsed, entryOf) == Entries(parsed, entryOf);
    ElementEntry(name, i, one.value);
    ElementEntry(name, j, two.value);
    TwoAssignments(parsed, entryOf, name, one.key, two.key, ParseInt(i, INT32_LIMIT).value, ParseInt(j, INT32_LIMIT).value,
                   ScalarOf(one.value), ScalarOf(two.value));
  }

  lemma SmallNumbers()
    ensures ParseInt("1", INT32_LIMIT) == ParseInt("01", INT32_LIMIT) == Some(1)
    ensures ParseInt("-1", INT32_LIMIT) == Some(-1) && ParseInt("0", INT32_LIMIT) == Some(0)
  {
    assert DigitsValue("") == 0;
    assert "1"[..0] == "" && "0"[..0] == "" && "01"[..1] == "0" && "-1"[1..] == "1";
    assert DigitsValue("0") == 0 && DigitsValue("1") == 1 && DigitsValue("01") == 1;
  }

  lemma SmallTexts()
    ensures ScalarOf("x") == Scalar.Text("x") && ScalarOf("y") == Scalar.Text("y")
  {
    assert 'x' in "x" && 'y' in "y";
  }

  lemma TwoSpellings(slot: Json, m: map<string, Assignment>, k: string, l: string)
    requires m.Keys == {k, l} && m[k].index == m[l].index >= 0 && m[k].value != m[l].value
    ensures !OrderFree(slot, m)
  {
    assert k in m && l in m && NoneNegative(m);
    assert Clash(m);
    ClashDiffers(slot, m);
  }

  lemma SpellingsFlag()
    ensures Printable([Pair("a[1]", "x"), Pair("a[01]", "y")], Bare)
    ensures PrintPairs([Pair("a[1]", "x"), Pair("a[01]", "y")], Bare) == "a[1]=x,a[01]=y"
  {}

  /** Two spellings of one index in one flag: the order shows, whatever the path holds. */
  lemma SpellingsClash(arrayKey: string -> Option<ArrayKey>, slot: Json)
    requires TakesApart(arrayKey, "a[1]", "a", "1") && TakesApart(arrayKey, "a[01]", "a", "01")
    ensures !OrderFree(slot, Assignments(AfterFlags(map[], ["a[1]=x,a[01]=y"], EntryOf(arrayKey)), "a"))
  {
    var one, two := Pair("a[1]", "x"), Pair("a[01]", "y");
    SpellingsFlag();
    SmallNumbers();
    SmallTexts();
    TwoPairs(arrayKey, "a", one, two, "1", "01");
    var m := Assignments(AfterFlags(map[], [PrintPairs([one, two], Bare)], EntryOf(arrayKey)), "a");
    TwoSpellings(slot, m, one.key, two.key);
  }

  lemma NegativeFlag()
    ensures Printable([Pair("a[-1]", "x"), Pair("a[0]", "y")], Bare)
    ensures PrintPairs([Pair("a[-1]", "x"), Pair("a[0]", "y")], Bare) == "a[-1]=x,a[0]=y"
  {}

  /** A negative index beside another on nothing: the order decides whether Go panics. */
  lemma NegativeIndexShows(arrayKey: string -> Option<ArrayKey>)
    requires TakesApart(arrayKey, "a[-1]", "a", "-1") && TakesApart(arrayKey, "a[0]", "a", "0")
    ensures !OrderFree(Null, Assignments(AfterFlags(map[], ["a[-1]=x,a[0]=y"], EntryOf(arrayKey)), "a"))
  {
    var one, two := Pair("a[-1]", "x"), Pair("a[0]", "y");
    NegativeFlag();
    SmallNumbers();
    TwoPairs(arrayKey, "a", one, two, "-1", "0");
    var m := Assignments(AfterFlags(map[], [PrintPairs([one, two], Bare)], EntryOf(arrayKey)), "a");
    assert one.key in m && two.key in m;
    MixedSignsDiffer(Null, m);
  }
}
