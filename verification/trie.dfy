/** The trie dictionary of `py_boggle/trie_dictionary.py`. A dictionary is
    its root node; loading is a pure fold of insertion over lines that have
    already been stripped, and every query lowercases its argument. */
module TrieDictionary {
  import opened Wrappers
  import opened Text

  /** One prefix position: the child for each next letter, and whether the
      path from the root to here spells a stored word. */
  datatype TrieNode = TrieNode(children: map<char, TrieNode>, isWord: bool)

  const EmptyNode := TrieNode(map[], false)

  /** Follows `w` letter by letter from `t`; `None` as soon as a letter has
      no child. No case folding. */
  function Walk(t: TrieNode, w: string): Option<TrieNode>
    decreases |w|
  {
    if w == [] then Some(t)
    else if w[0] in t.children then Walk(t.children[w[0]], w[1..])
    else None
  }

  /** `w` (taken verbatim) ends at a node flagged as a word. */
  predicate Stored(t: TrieNode, w: string)
  {
    var n := Walk(t, w);
    n.Some? && n.value.isWord
  }

  /** The insertion loop of `load_dictionary`: create missing children along
      `w`, then flag the last node. */
  function Insert(t: TrieNode, w: string): (r: TrieNode)
    decreases |w|
  {
    if w == [] then t.(isWord := true)
    else
      var child := if w[0] in t.children then t.children[w[0]] else EmptyNode;
      t.(children := t.children[w[0] := Insert(child, w[1..])])
  }

  /** Loading one stripped line: it is lowercased, then inserted. A blank
      line inserts the empty word and so flags the root. */
  function LoadLine(t: TrieNode, line: string): TrieNode
  {
    Insert(t, Lower(line))
  }

  function LoadLines(t: TrieNode, lines: seq<string>): TrieNode
    decreases |lines|
  {
    if lines == [] then t else LoadLines(LoadLine(t, lines[0]), lines[1..])
  }

  /** A fresh dictionary after `load_dictionary` read `lines`. */
  function Load(lines: seq<string>): TrieNode
  {
    LoadLines(EmptyNode, lines)
  }

  function Traverse(t: TrieNode, prefix: string): Option<TrieNode>
  {
    Walk(t, Lower(prefix))
  }

  predicate IsPrefix(t: TrieNode, prefix: string)
  {
    Traverse(t, prefix).Some?
  }

  predicate Contains(t: TrieNode, word: string)
  {
    var n := Traverse(t, word);
    n.Some? && n.value.isWord
  }

  // ---------------------------------------------------------------------
  // Insertion and loading

  lemma {:induction false} EmptyStoresNothing(w: string)
    ensures !Stored(EmptyNode, w)
  {
  }

  /** Inserting `w` stores exactly one more word: `w`. */
  lemma {:induction false} InsertStored(t: TrieNode, w: string, v: string)
    ensures Stored(Insert(t, w), v) <==> v == w || Stored(t, v)
    decreases |w|
  {
    if w != [] && v != [] && v[0] == w[0] {
      var child := if w[0] in t.children then t.children[w[0]] else EmptyNode;
      InsertStored(child, w[1..], v[1..]);
      assert v == w <==> v[1..] == w[1..];
      assert Walk(Insert(t, w), v) == Walk(Insert(child, w[1..]), v[1..]);
    }
  }

  /** Inserting `w` makes exactly the prefixes of `w` walkable in addition
      to what was walkable before. */
  lemma {:induction false} InsertWalk(t: TrieNode, w: string, v: string)
    ensures Walk(Insert(t, w), v).Some? <==> IsPrefixOf(v, w) || Walk(t, v).Some?
    decreases |w|
  {
    if w != [] && v != [] && v[0] == w[0] {
      var child := if w[0] in t.children then t.children[w[0]] else EmptyNode;
      InsertWalk(child, w[1..], v[1..]);
      assert IsPrefixOf(v, w) <==> IsPrefixOf(v[1..], w[1..]) by {
        if |v| <= |w| {
          assert w[..|v|] == [w[0]] + w[1..][..|v| - 1];
          assert v == [v[0]] + v[1..];
        }
      }
      assert Walk(Insert(t, w), v) == Walk(Insert(child, w[1..]), v[1..]);
    }
  }

  /** After loading a line, `contains` holds for it, and for any other
      string exactly when it held before or the two agree up to case. */
  lemma LoadLineContains(t: TrieNode, line: string, v: string)
    ensures Contains(LoadLine(t, line), line)
    ensures Contains(LoadLine(t, line), v) <==> Lower(v) == Lower(line) || Contains(t, v)
  {
    InsertStored(t, Lower(line), Lower(line));
    InsertStored(t, Lower(line), Lower(v));
    LowerIdempotent(line);
  }

  lemma {:induction false} LoadLinesContains(t: TrieNode, lines: seq<string>, v: string)
    ensures Contains(LoadLines(t, lines), v) <==>
              Contains(t, v) || exists l :: l in lines && Lower(l) == Lower(v)
    decreases |lines|
  {
    if lines != [] {
      LoadLineContains(t, lines[0], v);
      LoadLinesContains(LoadLine(t, lines[0]), lines[1..], v);
      assert forall l :: l in lines <==> l == lines[0] || l in lines[1..];
    }
  }

  /** The loaded dictionary contains exactly the loaded lines, up to case. */
  lemma LoadContains(lines: seq<string>, v: string)
    ensures Contains(Load(lines), v) <==> exists l :: l in lines && Lower(l) == Lower(v)
  {
    LoadLinesContains(EmptyNode, lines, v);
    EmptyStoresNothing(Lower(v));
  }

  /** A blank line flags the root: the empty string becomes a word. */
  lemma BlankLineFlagsRoot(lines: seq<string>)
    requires "" in lines
    ensures Load(lines).isWord
    ensures Contains(Load(lines), "")
  {
    LoadContains(lines, "");
  }

  lemma {:induction false} LoadLinesIsPrefix(t: TrieNode, lines: seq<string>, p: string)
    ensures IsPrefix(LoadLines(t, lines), p) <==>
              IsPrefix(t, p) || exists l :: l in lines && IsPrefixOf(Lower(p), Lower(l))
    decreases |lines|
  {
    if lines != [] {
      InsertWalk(t, Lower(lines[0]), Lower(p));
      LoadLinesIsPrefix(LoadLine(t, lines[0]), lines[1..], p);
      assert forall l :: l in lines <==> l == lines[0] || l in lines[1..];
    }
  }

  /** `is_prefix(p)` holds of a loaded dictionary iff `p` is empty or starts
      some loaded line, up to case. */
  lemma LoadIsPrefix(lines: seq<string>, p: string)
    ensures IsPrefix(Load(lines), p) <==>
              p == [] || exists l :: l in lines && IsPrefixOf(Lower(p), Lower(l))
  {
    LoadLinesIsPrefix(EmptyNode, lines, p);
  }

  // ---------------------------------------------------------------------
  // Queries

  lemma {:induction false} WalkPrefixClosed(t: TrieNode, p: string, s: string)
    requires Walk(t, p + s).Some?
    ensures Walk(t, p).Some?
    decreases |p|
  {
    if p != [] {
      assert (p + s)[0] == p[0] && (p + s)[1..] == p[1..] + s;
      WalkPrefixClosed(t.children[p[0]], p[1..], s);
    }
  }

  /** Walking one more letter moves to that letter's child, or fails as
      soon as there is none. */
  lemma {:induction false} WalkExtend(t: TrieNode, p: string, x: char)
    ensures Walk(t, p + [x]) ==
              if Walk(t, p).Some? && x in Walk(t, p).value.children
              then Some(Walk(t, p).value.children[x]) else None
    decreases |p|
  {
    if p == [] {
      assert p + [x] == [x] && [x][1..] == [];
    } else {
      assert (p + [x])[0] == p[0] && (p + [x])[1..] == p[1..] + [x];
      if p[0] in t.children {
        WalkExtend(t.children[p[0]], p[1..], x);
      }
    }
  }

  /** `is_prefix` is prefix-closed: `traverse` fails on every extension of a
      string it fails on. */
  lemma PrefixClosed(t: TrieNode, p: string, s: string)
    ensures IsPrefix(t, p + s) ==> IsPrefix(t, p)
    ensures Traverse(t, p).None? ==> Traverse(t, p + s).None?
  {
    assert Lower(p + s) == Lower(p) + Lower(s);
    if IsPrefix(t, p + s) {
      WalkPrefixClosed(t, Lower(p), Lower(s));
    }
  }

  /** Every prefix of a contained word is a valid prefix. */
  lemma ContainsPrefixes(t: TrieNode, w: string, p: string)
    requires Contains(t, w) && IsPrefixOf(p, w)
    ensures IsPrefix(t, w) && IsPrefix(t, p)
  {
    assert w == p + w[|p|..];
    PrefixClosed(t, p, w[|p|..]);
  }

  /** Queries ignore case. */
  lemma CaseInsensitive(t: TrieNode, w: string)
    ensures Contains(t, w) == Contains(t, Lower(w))
    ensures IsPrefix(t, w) == IsPrefix(t, Lower(w))
    ensures Traverse(t, w) == Traverse(t, Lower(w))
  {
    LowerIdempotent(w);
  }

  // ---------------------------------------------------------------------
  // Iteration

  lemma {:induction false} MinExists(s: set<char>)
    requires s != {}
    ensures exists m :: m in s && forall x :: x in s ==> m <= x
    decreases |s|
  {
    var y :| y in s;
    if s != {y} {
      MinExists(s - {y});
      var m :| m in s - {y} && forall x :: x in s - {y} ==> m <= x;
      var least := if y < m then y else m;
      forall x | x in s
        ensures least <= x
      {
        if x != y {
          assert x in s - {y};
        }
      }
    } else {
      assert forall x :: x in s ==> y <= x;
    }
  }

  /** The keys of a children map in increasing order, as `sorted` lists
      them. */
  function SortedKeys(s: set<char>): (r: seq<char>)
    ensures forall c :: c in r <==> c in s
    ensures forall i, j :: 0 <= i < j < |r| ==> r[i] < r[j]
    decreases s
  {
    if s == {} then []
    else
      MinExists(s);
      var m :| m in s && forall x :: x in s ==> m <= x;
      [m] + SortedKeys(s - {m})
  }

  /** The nested generator `dfs(node, prefix)` of `__iter__`, as the
      sequence it yields: the node's own word first, then each child in
      increasing letter order. */
  function Dfs(t: TrieNode, prefix: string): seq<string>
    decreases t, 1
  {
    (if t.isWord then [prefix] else []) + DfsChildren(t, SortedKeys(t.children.Keys), prefix)
  }

  function DfsChildren(t: TrieNode, keys: seq<char>, prefix: string): seq<string>
    requires forall k :: k in keys ==> k in t.children
    decreases t, 0, |keys|
  {
    if keys == [] then []
    else Dfs(t.children[keys[0]], prefix + [keys[0]]) + DfsChildren(t, keys[1..], prefix)
  }

  /** `iter(dictionary)`: every stored word, from the root. */
  function Iterate(t: TrieNode): seq<string>
  {
    Dfs(t, [])
  }

  /** `get_all_words`: the words the iterator yields, as a set. */
  function GetAllWords(t: TrieNode): set<string>
  {
    set w | w in Iterate(t)
  }

  lemma {:induction false} DfsMembers(t: TrieNode, prefix: string, w: string)
    ensures w in Dfs(t, prefix) <==> IsPrefixOf(prefix, w) && Stored(t, w[|prefix|..])
    decreases t, 1
  {
    var keys := SortedKeys(t.children.Keys);
    DfsChildrenMembers(t, keys, prefix, w);
    if IsPrefixOf(prefix, w) && |w| == |prefix| {
      assert w == prefix && w[|prefix|..] == [];
    }
  }

  /** Extending a prefix by one letter, stated on its string. */
  lemma PrefixPlusLetter(prefix: string, k: char, w: string)
    ensures IsPrefixOf(prefix + [k], w) <==>
              |prefix| < |w| && w[..|prefix|] == prefix && w[|prefix|] == k
  {
    if |prefix| < |w| && w[..|prefix|] == prefix && w[|prefix|] == k {
      assert w[..|prefix| + 1] == w[..|prefix|] + [w[|prefix|]];
    }
    if IsPrefixOf(prefix + [k], w) {
      assert w[..|prefix| + 1][..|prefix|] == w[..|prefix|];
      assert w[..|prefix| + 1][|prefix|] == k;
    }
  }

  /** A stored suffix that starts with `k` is a stored word of the child
      for `k`. */
  lemma StoredThroughChild(t: TrieNode, k: char, w: string, n: nat)
    requires k in t.children && n < |w| && w[n] == k
    ensures Stored(t, w[n..]) <==> Stored(t.children[k], w[n + 1..])
  {
    assert w[n..][0] == k && w[n..][1..] == w[n + 1..];
  }

  lemma {:induction false} DfsChildrenMembers(t: TrieNode, keys: seq<char>, prefix: string, w: string)
    requires forall k :: k in keys ==> k in t.children
    ensures w in DfsChildren(t, keys, prefix) <==>
              |prefix| < |w| && w[..|prefix|] == prefix && w[|prefix|] in keys && Stored(t, w[|prefix|..])
    decreases t, 0, |keys|
  {
    if keys != [] {
      var k := keys[0];
      DfsMembers(t.children[k], prefix + [k], w);
      DfsChildrenMembers(t, keys[1..], prefix, w);
      PrefixPlusLetter(prefix, k, w);
      assert forall c :: c in keys <==> c == k || c in keys[1..];
      if |prefix| < |w| && w[|prefix|] == k {
        StoredThroughChild(t, k, w, |prefix|);
        assert (prefix + [k]) == w[..|prefix| + 1] ==> w[|prefix| + 1..] == w[|prefix + [k]|..];
      }
    }
  }

  /** The iterator yields exactly the stored words. */
  lemma IterateMembers(t: TrieNode, w: string)
    ensures w in Iterate(t) <==> Stored(t, w)
  {
    DfsMembers(t, [], w);
    assert w[0..] == w;
  }

  lemma {:induction false} DfsSorted(t: TrieNode, prefix: string)
    ensures StrictlySorted(Dfs(t, prefix))
    decreases t, 1
  {
    var keys := SortedKeys(t.children.Keys);
    var rest := DfsChildren(t, keys, prefix);
    DfsChildrenSorted(t, keys, prefix);
    if t.isWord {
      forall y | y in rest
        ensures LexLess(prefix, y)
      {
        DfsChildrenMembers(t, keys, prefix, y);
        LexLessProperPrefix(prefix, y);
      }
      SortedConcat([prefix], rest);
    }
  }

  lemma {:induction false} DfsChildrenSorted(t: TrieNode, keys: seq<char>, prefix: string)
    requires forall k :: k in keys ==> k in t.children
    requires forall i, j :: 0 <= i < j < |keys| ==> keys[i] < keys[j]
    ensures StrictlySorted(DfsChildren(t, keys, prefix))
    decreases t, 0, |keys|
  {
    if keys != [] {
      var k := keys[0];
      var first := Dfs(t.children[k], prefix + [k]);
      var rest := DfsChildren(t, keys[1..], prefix);
      DfsSorted(t.children[k], prefix + [k]);
      DfsChildrenSorted(t, keys[1..], prefix);
      forall x, y | x in first && y in rest
        ensures LexLess(x, y)
      {
        FirstBlockBeforeRest(t, keys, prefix, x, y);
      }
      SortedConcat(first, rest);
    }
  }

  /** A word below the first child comes before every word below a later
      child. */
  lemma FirstBlockBeforeRest(t: TrieNode, keys: seq<char>, prefix: string, x: string, y: string)
    requires forall k :: k in keys ==> k in t.children
    requires forall i, j :: 0 <= i < j < |keys| ==> keys[i] < keys[j]
    requires keys != [] && x in Dfs(t.children[keys[0]], prefix + [keys[0]])
    requires y in DfsChildren(t, keys[1..], prefix)
    ensures LexLess(x, y)
  {
    var k := keys[0];
    DfsMembers(t.children[k], prefix + [k], x);
    DfsChildrenMembers(t, keys[1..], prefix, y);
    PrefixPlusLetter(prefix, k, x);
    var j :| 0 <= j < |keys[1..]| && keys[1..][j] == y[|prefix|];
    assert keys[0] < keys[j + 1];
    LexLessFork(x, y, |prefix|);
  }

  /** Iteration is strictly increasing in Python's string order. */
  lemma IterateSorted(t: TrieNode)
    ensures StrictlySorted(Iterate(t))
  {
    DfsSorted(t, []);
  }

  /** No word is yielded twice, and each word is yielded before all of its
      extensions. */
  lemma IterateNoDuplicatesPrefixFirst(t: TrieNode, i: int, j: int)
    requires 0 <= i < |Iterate(t)| && 0 <= j < |Iterate(t)|
    ensures i != j ==> Iterate(t)[i] != Iterate(t)[j]
    ensures |Iterate(t)[i]| < |Iterate(t)[j]| && IsPrefixOf(Iterate(t)[i], Iterate(t)[j]) ==> i < j
  {
    var s := Iterate(t);
    IterateSorted(t);
    if i < j {
      LexLessAsymmetric(s[i], s[j]);
      LexLessIrreflexive(s[i]);
    } else if j < i {
      LexLessAsymmetric(s[j], s[i]);
      LexLessIrreflexive(s[j]);
      if |s[i]| < |s[j]| && IsPrefixOf(s[i], s[j]) {
        LexLessProperPrefix(s[i], s[j]);
      }
    }
  }

  /** `get_all_words` of a loaded dictionary is the set of loaded lines,
      lowercased; equivalently the lowercase strings it contains. */
  lemma GetAllWordsOfLoad(lines: seq<string>, w: string)
    ensures w in GetAllWords(Load(lines)) <==> exists l :: l in lines && w == Lower(l)
    ensures w in GetAllWords(Load(lines)) <==> Contains(Load(lines), w) && Lower(w) == w
  {
    var t := Load(lines);
    IterateMembers(t, w);
    LoadLinesStoredLower(EmptyNode, lines, w);
    EmptyStoresNothing(w);
    LoadContains(lines, w);
    if Contains(t, w) && Lower(w) == w {
      var l :| l in lines && Lower(l) == Lower(w);
    }
    if l :| l in lines && w == Lower(l) {
      LowerIdempotent(l);
    }
  }

  lemma {:induction false} LoadLinesStoredLower(t: TrieNode, lines: seq<string>, w: string)
    ensures Stored(LoadLines(t, lines), w) <==> Stored(t, w) || exists l :: l in lines && w == Lower(l)
    decreases |lines|
  {
    if lines != [] {
      InsertStored(t, Lower(lines[0]), w);
      LoadLinesStoredLower(LoadLine(t, lines[0]), lines[1..], w);
      assert forall l :: l in lines <==> l == lines[0] || l in lines[1..];
    }
  }
}
