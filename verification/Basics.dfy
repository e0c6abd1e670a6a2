/** What all modules share: optional values, JSON, maps given by lists of pairs, and lists without
    duplicates as orders of a set. */
module Basics {

  datatype Option<T> = None | Some(value: T)

  datatype Scalar = Integer(i: int) | Float(text: string) | Boolean(b: bool) | Text(s: string)

  datatype Json = Null | Scalar(value: Scalar) | Array(elems: seq<Json>) | Object(members: map<string, Json>)

  datatype Pair = Pair(key: string, value: string)

  /** The map of a list of pairs: the last value of a key wins. */
  function LastWins(pairs: seq<Pair>): map<string, string> {
    if pairs == [] then map[]
    else LastWins(pairs[..|pairs| - 1])[pairs[|pairs| - 1].key := pairs[|pairs| - 1].value]
  }

  lemma LastWinsSnoc(pairs: seq<Pair>, pair: Pair)
    ensures LastWins(pairs + [pair]) == LastWins(pairs)[pair.key := pair.value]
  {
    assert (pairs + [pair])[..|pairs|] == pairs;
  }

  predicate NoDuplicates<T(==)>(s: seq<T>) {
    forall i, j | 0 <= i < j < |s| :: s[i] != s[j]
  }

  lemma HasMember<T>(s: seq<T>)
    ensures s != [] <==> exists k :: k in s
  {
    if s != [] {
      assert s[0] in s;
    }
  }

  lemma NoDuplicatesConcat<T>(a: seq<T>, b: seq<T>)
    requires NoDuplicates(a) && NoDuplicates(b) && forall x | x in a :: x !in b
    ensures NoDuplicates(a + b)
  {
    forall i, j | 0 <= i < j < |a + b| ensures (a + b)[i] != (a + b)[j] {
      if i < |a| <= j {
        assert a[i] in a && b[j - |a|] in b;
      }
    }
  }

  /** Some order of a finite set. */
  lemma SomeOrder<T>(keys: set<T>) returns (order: seq<T>)
    ensures NoDuplicates(order) && forall k :: k in order <==> k in keys
  {
    order := [];
    var todo := keys;
    while todo != {}
      invariant todo <= keys && NoDuplicates(order)
      invariant forall k :: k in order <==> k in keys && k !in todo
    {
      var k :| k in todo;
      todo := todo - {k};
      order := order + [k];
    }
  }

  lemma {:induction false} CountsOnce<T>(s: seq<T>, v: T)
    requires NoDuplicates(s)
    ensures multiset(s)[v] == if v in s then 1 else 0
  {
    if s != [] {
      CountsOnce(s[1..], v);
      assert s == [s[0]] + s[1..];
    }
  }

  lemma CountsTwice<T>(s: seq<T>, i: nat, j: nat)
    requires i < j < |s| && s[i] == s[j]
    ensures multiset(s)[s[i]] >= 2
  {
    assert s == s[..j] + s[j..];
    assert s[i] in s[..j] && s[j] in s[j..];
  }

  /** A permutation lists the same members, each as often. */
  lemma PermutationKeepsListing<T>(s: seq<T>, t: seq<T>)
    requires multiset(s) == multiset(t) && NoDuplicates(s)
    ensures NoDuplicates(t) && forall v :: v in t <==> v in s
  {
    forall v ensures v in t <==> v in s {
      assert v in t <==> v in multiset(t);
      assert v in s <==> v in multiset(s);
    }
    forall i, j | 0 <= i < j < |t| ensures t[i] != t[j] {
      CountsOnce(s, t[i]);
      if t[i] == t[j] {
        CountsTwice(t, i, j);
      }
    }
  }
}
