/** `GetOrderedKubeletConfigFlagString` of `pkg/agent/utils.go`: the kubelet's command line. */
module KubeletFlags {
  import opened Basics
  import opened Text
  import opened Sorting

  predicate StrictlyAscending(s: seq<string>) {
    forall i, j | 0 <= i < j < |s| :: LexLt(s[i], s[j])
  }

  ghost predicate Lists(s: seq<string>, keys: set<string>) {
    forall k :: k in s <==> k in keys
  }

  lemma {:induction false} AscendingListIsUnique(s: seq<string>, t: seq<string>, keys: set<string>)
    requires StrictlyAscending(s) && StrictlyAscending(t) && Lists(s, keys) && Lists(t, keys)
    ensures s == t
  {
    assert s != [] ==> s[0] in t;
    assert t != [] ==> t[0] in s;
    if s != [] && t != [] {
      LexTotal(s[0], t[0]);
      assert s[0] == t[0];
      assert s == [s[0]] + s[1..] && t == [t[0]] + t[1..];
      LexIrreflexive(s[0]);
      AscendingListIsUnique(s[1..], t[1..], keys - {s[0]});
    }
  }

  predicate LexLe(a: string, b: string) {
    a == b || LexLt(a, b)
  }

  lemma LexLeIsTotal()
    ensures TotalPreorder(LexLe)
  {
    forall a: string, b: string ensures LexLe(a, b) || LexLe(b, a) {
      LexTotal(a, b);
    }
    forall a: string, b: string, c: string | LexLe(a, b) && LexLe(b, c) ensures LexLe(a, c) {
      if LexLt(a, b) && LexLt(b, c) {
        LexTransitive(a, b, c);
      }
    }
  }

  /** Sorting keys that occur once gives their strictly ascending list. */
  lemma SortedKeysAscend(keys: seq<string>)
    requires NoDuplicates(keys)
    ensures StrictlyAscending(Sort(keys, LexLe))
    ensures forall k :: k in Sort(keys, LexLe) <==> k in keys
  {
    var sorted := Sort(keys, LexLe);
    LexLeIsTotal();
    SortSorted(keys, LexLe);
    PermutationKeepsListing(keys, sorted);
  }

  lemma AscendingListExists(keys: set<string>) returns (s: seq<string>)
    ensures StrictlyAscending(s) && Lists(s, keys)
  {
    var list := SomeOrder(keys);
    SortedKeysAscend(list);
    s := Sort(list, LexLe);
  }

  /** The keys of a map in ascending order. */
  ghost function SortedKeys(keys: set<string>): (s: seq<string>)
    ensures StrictlyAscending(s) && Lists(s, keys)
  {
    assert exists s :: StrictlyAscending(s) && Lists(s, keys) by {
      var s := AscendingListExists(keys);
    }
    var s :| StrictlyAscending(s) && Lists(s, keys);
    s
  }

  /** The flags that stay on the command line: all of them, or without the config file's. */
  function Kept(k: map<string, string>, translated: set<string>, configFileEnabled: bool): map<string, string> {
    map f | f in k && (!configFileEnabled || f !in translated) :: k[f]
  }

  function Render(keys: seq<string>, k: map<string, string>): string
    requires forall f | f in keys :: f in k
  {
    if keys == [] then "" else Word(keys[0], k) + " " + Render(keys[1..], k)
  }

  function Word(name: string, k: map<string, string>): string
    requires name in k
  {
    name + ['='] + k[name]
  }

  /** The string is a function of the kept flags alone, whatever the iteration order: each of
      them once, in strictly ascending order of their names. A nil map (None) gives "". */
  method GetOrderedKubeletConfigFlagString(k: Option<map<string, string>>, translated: set<string>, configFileEnabled: bool)
    returns (s: string)
    ensures k.None? ==> s == ""
    ensures k.Some? ==>
              var kept := Kept(k.value, translated, configFileEnabled);
              s == Render(SortedKeys(kept.Keys), kept)
    ensures k.Some? && (forall f | f in k.value :: CleanFlag(f, k.value[f])) ==>
              && (forall f :: f in ReadFlags(s) <==> f in k.value && !(configFileEnabled && f in translated))
              && (forall f | f in ReadFlags(s) :: ReadFlags(s)[f] == k.value[f])
  {
    if k.None? {
      return "";
    }
    ghost var kept := Kept(k.value, translated, configFileEnabled);
    var keys := [];
    var todo := k.value.Keys;
    while todo != {}
      invariant todo <= k.value.Keys && NoDuplicates(keys)
      invariant forall f :: f in keys <==> f in kept && f !in todo
    {
      var key :| key in todo;
      todo := todo - {key};
      if !configFileEnabled || key !in translated {
        keys := keys + [key];
      }
    }
    SortedKeysAscend(keys);
    keys := Sort(keys, LexLe);
    AscendingListIsUnique(keys, SortedKeys(kept.Keys), kept.Keys);
    s := RenderLoop(keys, k.value, kept);
    ReadsBackIffClean(keys, kept);
  }

  method RenderLoop(keys: seq<string>, k: map<string, string>, ghost kept: map<string, string>) returns (buf: string)
    requires forall f | f in keys :: f in kept && f in k && k[f] == kept[f]
    ensures buf == Render(keys, kept)
  {
    buf := "";
    for i := 0 to |keys|
      invariant buf + Render(keys[i..], kept) == Render(keys, kept)
    {
      var word := Word(keys[i], k) + " ";
      assert keys[i..][1..] == keys[i + 1..];
      assert buf + (word + Render(keys[i + 1..], kept)) == buf + word + Render(keys[i + 1..], kept);
      buf := buf + word;
    }
    assert buf + "" == buf;
  }

  // ---------------------------------------------------------------------------------------
  // Reading the string back
  // ---------------------------------------------------------------------------------------

  function ReadWords(words: seq<string>): map<string, string> {
    if words == [] then map[]
    else
      var flags := ReadWords(words[..|words| - 1]);
      var flag := CutAt(words[|words| - 1], '=');
      if flag.None? then flags else flags[flag.value.0 := flag.value.1]
  }

  /** The flags in a command line of blank-separated words. */
  function ReadFlags(s: string): map<string, string> {
    ReadWords(Split(s, ' '))
  }

  predicate CleanFlag(name: string, value: string) {
    ' ' !in name && '=' !in name && ' ' !in value
  }

  lemma {:induction false} ReadFlagsAreClean(words: seq<string>, name: string)
    requires forall w | w in words :: ' ' !in w
    requires name in ReadWords(words)
    ensures CleanFlag(name, ReadWords(words)[name])
  {
    var last := words[|words| - 1];
    var front := words[..|words| - 1];
    assert last in words;
    if CutAt(last, '=').Some? {
      CutParts(last, '=');
    }
    if CutAt(last, '=').None? || CutAt(last, '=').value.0 != name {
      ReadFlagsAreClean(front, name);
    }
  }

  function Words(keys: seq<string>, k: map<string, string>): seq<string>
    requires forall f | f in keys :: f in k
  {
    seq(|keys|, i requires 0 <= i < |keys| => Word(keys[i], k))
  }

  lemma {:induction false} RenderJoinsWords(keys: seq<string>, k: map<string, string>)
    requires forall f | f in keys :: f in k
    ensures Render(keys, k) == Join(Words(keys, k) + [""], ' ')
  {
    if keys != [] {
      RenderJoinsWords(keys[1..], k);
      var words := Words(keys, k) + [""];
      assert words[1..] == Words(keys[1..], k) + [""];
    }
  }

  lemma {:induction false} ReadTheWords(keys: seq<string>, k: map<string, string>)
    requires forall f | f in keys :: f in k && CleanFlag(f, k[f])
    ensures ReadWords(Words(keys, k)) == map f | f in keys && f in k :: k[f]
  {
    if keys != [] {
      var n := |keys| - 1;
      assert keys[n] in keys && keys == keys[..n] + [keys[n]];
      assert Words(keys, k)[..n] == Words(keys[..n], k);
      ReadTheWords(keys[..n], k);
      CutFirst(keys[n], '=', k[keys[n]]);
    }
  }

  lemma ReadRendered(keys: seq<string>, k: map<string, string>)
    requires forall f | f in keys :: f in k && CleanFlag(f, k[f])
    ensures ReadFlags(Render(keys, k)) == map f | f in keys && f in k :: k[f]
  {
    var words := Words(keys, k);
    forall i | 0 <= i < |words| ensures ' ' !in words[i] {
      assert keys[i] in keys;
    }
    RenderJoinsWords(keys, k);
    SplitJoin(words + [""], ' ');
    ReadTheWords(keys, k);
    assert (words + [""])[..|words|] == words;
    assert CutAt("", '=') == None;
  }

  /** The command line can be read back, for every map and every order of rendering, exactly
      when no name has a blank or '=' and no value a blank. */
  lemma ReadsBackIffClean(keys: seq<string>, k: map<string, string>)
    requires Lists(keys, k.Keys)
    ensures ReadFlags(Render(keys, k)) == k <==> forall f | f in k :: CleanFlag(f, k[f])
  {
    var s := Render(keys, k);
    var words := Split(s, ' ');
    if forall f | f in k :: CleanFlag(f, k[f]) {
      ReadRendered(keys, k);
    }
    if ReadFlags(s) == k {
      SplitPieces(s, ' ');
      forall f | f in k ensures CleanFlag(f, k[f]) {
        ReadFlagsAreClean(words, f);
      }
    }
  }
}
