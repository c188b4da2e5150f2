/** `find_word_in_board` of `py_boggle/my_game_manager.py`: a backtracking
    depth-first search for one path spelling a word, trying start cells in
    row-major order and neighbours in the fixed order of `Directions`. */
module WordFinder {
  import opened Wrappers
  import opened Text
  import opened Board

  /** `q` is `path` followed by cells that spell `word[index..]`, each in
      bounds, new, and adjacent to the one before. */
  ghost predicate Extends(b: Grid, word: string, index: nat, path: seq<Cell>, q: seq<Cell>)
    requires IsSquare(b) && index <= |word|
  {
    && |q| == |path| + |word| - index
    && q[..|path|] == path
    && (forall i :: |path| <= i < |q| ==>
          InBounds(b, q[i]) && q[i] !in q[..i] && At(b, q[i]) == word[index + i - |path|])
    && (forall i :: |path| < i < |q| ==> Adjacent(q[i - 1], q[i]))
  }

  /** The nested `dfs(row, col, index, path)`. `path` holds the cells
      already matched; the result is the completed path, or `None`. */
  function FindDfs(b: Grid, word: string, c: Cell, index: nat, path: seq<Cell>): (r: Option<seq<Cell>>)
    requires IsSquare(b) && index <= |word|
    ensures r.Some? ==> Extends(b, word, index, path, r.value)
    ensures r.Some? && index < |word| ==> r.value[|path|] == c
    decreases |word| - index, 1
  {
    if index == |word| then Some(path)
    else if !InBounds(b, c) || c in path then None
    else if At(b, c) != word[index] then None
    else
      var r := FindDirs(b, word, c, index, path + [c], 0);
      assert r.Some? ==> r.value[|path|] == (path + [c])[|path|];
      r
  }

  /** The loop over the eight directions after `c` was appended to `path`;
      `if result:` accepts only a non-empty path. */
  function FindDirs(b: Grid, word: string, c: Cell, index: nat, path: seq<Cell>, k: nat): (r: Option<seq<Cell>>)
    requires IsSquare(b) && index < |word| && k <= |Directions|
    requires |path| > 0 && path[|path| - 1] == c
    ensures r.Some? ==> Extends(b, word, index + 1, path, r.value)
    ensures r.Some? && index + 1 < |word| ==> Adjacent(c, r.value[|path|])
    decreases |word| - index, 0, |Directions| - k
  {
    if k == |Directions| then None
    else
      var r := FindDfs(b, word, Step(c, k), index + 1, path);
      if r.Some? && |r.value| > 0 then (StepAdjacent(c, k); r)
      else FindDirs(b, word, c, index, path, k + 1)
  }

  /** The nested `for row ... for col ...` loop over start cells. */
  function FindFrom(b: Grid, word: string, row: nat, col: nat): (r: Option<seq<Cell>>)
    requires IsSquare(b)
    ensures r.Some? ==> |r.value| > 0 && Extends(b, word, 0, [], r.value)
    ensures r.Some? ==> NotBefore(row, col, r.value[0]) && r == FindDfs(b, word, r.value[0], 0, [])
    decreases |b| - row, |b| - col
  {
    if row >= |b| then None
    else if col >= |b| then FindFrom(b, word, row + 1, 0)
    else
      var r := FindDfs(b, word, Cell(row, col), 0, []);
      if r.Some? && |r.value| > 0 then r else FindFrom(b, word, row, col + 1)
  }

  /** A path built by `Extends` from the empty path is a simple path that
      spells the word. */
  lemma ExtendsFromEmpty(b: Grid, word: string, q: seq<Cell>)
    requires IsSquare(b) && Extends(b, word, 0, [], q)
    ensures IsPath(b, q) && Spell(b, q) == word
  {
    forall i, j | 0 <= i < j < |q|
      ensures q[i] != q[j]
    {
      assert q[i] == q[..j][i];
    }
  }

  /** `find_word_in_board(word)`: the first path found, lowercasing the word. */
  function FindWordInBoard(b: Grid, word: string): (r: Option<seq<Cell>>)
    requires IsSquare(b)
    ensures r.Some? ==> |r.value| == |word| > 0
    ensures r.Some? ==> IsPath(b, r.value) && Spell(b, r.value) == Lower(word)
  {
    var r := FindFrom(b, Lower(word), 0, 0);
    if r.Some? then ExtendsFromEmpty(b, Lower(word), r.value); r else r
  }

  // ---------------------------------------------------------------------
  // Completeness

  lemma {:induction false} FindDirsReaches(b: Grid, word: string, c: Cell, index: nat, path: seq<Cell>, k0: nat, k: nat)
    requires IsSquare(b) && index < |word| && k0 <= k < |Directions|
    requires |path| > 0 && path[|path| - 1] == c
    requires FindDfs(b, word, Step(c, k), index + 1, path).Some?
    ensures FindDirs(b, word, c, index, path, k0).Some?
    decreases k - k0
  {
    if k0 < k {
      var r := FindDfs(b, word, Step(c, k0), index + 1, path);
      if !(r.Some? && |r.value| > 0) {
        FindDirsReaches(b, word, c, index, path, k0 + 1, k);
      }
    }
  }

  /** If `path` can be completed by `q` into a simple path spelling `word`,
      the search from the first cell of `q` finds a path. */
  lemma {:induction false} FindDfsComplete(b: Grid, word: string, c: Cell, index: nat, path: seq<Cell>, q: seq<Cell>)
    requires IsSquare(b) && index <= |word| && |path| == index
    requires IsPath(b, path + q) && Spell(b, path + q) == word
    requires q != [] ==> q[0] == c
    ensures FindDfs(b, word, c, index, path).Some?
    decreases |word| - index
  {
    if index < |word| {
      var p := path + q;
      assert p[|path|] == c;
      assert c !in path by {
        forall i | 0 <= i < |path| ensures path[i] != c {
          assert path[i] == p[i];
        }
      }
      var path' := path + [c];
      if index + 1 == |word| {
        FindDirsReaches(b, word, c, index, path', 0, 0);
      } else {
        var next := q[1];
        assert p[|path| + 1] == next;
        var k := DirOf(c, next);
        assert path' + q[1..] == p;
        FindDfsComplete(b, word, next, index + 1, path', q[1..]);
        FindDirsReaches(b, word, c, index, path', 0, k);
      }
    }
  }

  lemma {:induction false} FindFromReaches(b: Grid, word: string, row: nat, col: nat, start: Cell)
    requires IsSquare(b) && InBounds(b, start) && NotBefore(row, col, start)
    requires FindDfs(b, word, start, 0, []).Some? && |FindDfs(b, word, start, 0, []).value| > 0
    ensures FindFrom(b, word, row, col).Some?
    decreases |b| - row, |b| - col
  {
    if col >= |b| {
      FindFromReaches(b, word, row + 1, 0, start);
    } else if Cell(row, col) != start {
      var r := FindDfs(b, word, Cell(row, col), 0, []);
      if !(r.Some? && |r.value| > 0) {
        FindFromReaches(b, word, row, col + 1, start);
      }
    }
  }

  /** `find_word_in_board` finds a path exactly when the word is non-empty
      and some simple path of adjacent cells spells it (lowercased). */
  lemma FindWordCorrect(b: Grid, word: string)
    requires IsSquare(b)
    ensures FindWordInBoard(b, word).Some? <==> |word| > 0 && OnBoard(b, Lower(word))
  {
    if |word| > 0 && OnBoard(b, Lower(word)) {
      var p :| IsPath(b, p) && Spell(b, p) == Lower(word);
      assert [] + p == p;
      FindDfsComplete(b, Lower(word), p[0], 0, [], p);
      FindFromReaches(b, Lower(word), 0, 0, p[0]);
    }
  }

  lemma {:induction false} FindFromFirst(b: Grid, word: string, row: nat, col: nat, start: Cell)
    requires IsSquare(b) && InBounds(b, start) && NotBefore(row, col, start)
    requires FindDfs(b, word, start, 0, []).Some? && |FindDfs(b, word, start, 0, []).value| > 0
    requires FindFrom(b, word, row, col).Some?
    ensures NotBefore(FindFrom(b, word, row, col).value[0].row, FindFrom(b, word, row, col).value[0].col, start)
    decreases |b| - row, |b| - col
  {
    if col >= |b| {
      FindFromFirst(b, word, row + 1, 0, start);
    } else {
      var cell := Cell(row, col);
      var r := FindDfs(b, word, cell, 0, []);
      if r.Some? && |r.value| > 0 {
        assert r.value[0] == cell;
      } else {
        FindFromFirst(b, word, row, col + 1, start);
      }
    }
  }

  /** Among all paths spelling the word, the one returned starts at the
      first start cell in row-major order. */
  lemma FindWordFirstStart(b: Grid, word: string, p: seq<Cell>)
    requires IsSquare(b) && IsPath(b, p) && Spell(b, p) == Lower(word) && |p| > 0
    ensures FindWordInBoard(b, word).Some?
    ensures NotBefore(FindWordInBoard(b, word).value[0].row, FindWordInBoard(b, word).value[0].col, p[0])
  {
    FindWordCorrect(b, word);
    assert [] + p == p;
    FindDfsComplete(b, Lower(word), p[0], 0, [], p);
    FindFromFirst(b, Lower(word), 0, 0, p[0]);
  }

  // ---------------------------------------------------------------------
  // Which path is returned

  /** The direction indices of the steps along `q`. */
  function Moves(q: seq<Cell>): (m: seq<nat>)
    ensures |m| == if |q| < 2 then 0 else |q| - 1
    decreases |q|
  {
    if |q| < 2 then [] else [DirOf(q[0], q[1])] + Moves(q[1..])
  }

  /** Lexicographic order on direction indices: `m` is not after `n`. */
  predicate MovesNotAfter(m: seq<nat>, n: seq<nat>)
  {
    m == [] || (n != [] && (m[0] < n[0] || (m[0] == n[0] && MovesNotAfter(m[1..], n[1..]))))
  }

  /** `p` comes no later than `q` when directions are tried in order: it
      starts at an earlier cell in row-major order, or at the same cell
      with a sequence of directions that is not lexicographically after. */
  predicate PathNotAfter(p: seq<Cell>, q: seq<Cell>)
    requires |p| > 0 && |q| > 0
  {
    || (p[0] != q[0] && NotBefore(p[0].row, p[0].col, q[0]))
    || (p[0] == q[0] && MovesNotAfter(Moves(p), Moves(q)))
  }

  /** Tried from the cell at position `index` of a spelling path `full`,
      the search succeeds and its directions from there on are not after
      those of `full`. */
  lemma {:induction false} FindDfsLeast(b: Grid, word: string, index: nat, path: seq<Cell>, full: seq<Cell>)
    requires IsSquare(b) && index < |word| && |path| == index
    requires IsPath(b, full) && Spell(b, full) == word && full[..index] == path
    ensures FindDfs(b, word, full[index], index, path).Some?
    ensures MovesNotAfter(Moves(FindDfs(b, word, full[index], index, path).value[index..]), Moves(full[index..]))
    decreases |word| - index, 1
  {
    var c := full[index];
    assert full[..index + 1] == path + [c];
    FindDirsLeast(b, word, index, path + [c], 0, full);
  }

  /** The direction loop from position `index` of `full`, starting at
      direction `k0`, which is not after the direction `full` takes. */
  lemma {:induction false} FindDirsLeast(b: Grid, word: string, index: nat, path: seq<Cell>, k0: nat, full: seq<Cell>)
    requires IsSquare(b) && index < |word| && |path| == index + 1 && k0 < |Directions|
    requires IsPath(b, full) && Spell(b, full) == word && full[..index + 1] == path
    requires index + 1 < |word| ==> k0 <= DirOf(full[index], full[index + 1])
    ensures FindDirs(b, word, full[index], index, path, k0).Some?
    ensures MovesNotAfter(Moves(FindDirs(b, word, full[index], index, path, k0).value[index..]), Moves(full[index..]))
    decreases |word| - index, 0, |Directions| - k0
  {
    var c := full[index];
    assert path[index] == c;
    var r0 := FindDfs(b, word, Step(c, k0), index + 1, path);
    var r := FindDirs(b, word, c, index, path, k0);
    if index + 1 == |word| {
      assert r == Some(path);
      assert |full| == index + 1;
      assert path[index..] == [c] == full[index..];
    } else {
      var next := full[index + 1];
      PathNext(b, full, index + 1);
      var k := DirOf(c, next);
      assert full[..index + 1] == path;
      FindDfsLeast(b, word, index + 1, path, full);
      var rn := FindDfs(b, word, next, index + 1, path);
      assert |rn.value| > 0;
      if r0.Some? && |r0.value| > 0 {
        assert r == r0;
        var q := r0.value;
        assert q[index] == path[index] == c;
        assert q[index + 1] == Step(c, k0);
        assert q[index..][1..] == q[index + 1..];
        assert full[index..][1..] == full[index + 1..];
        assert Moves(q[index..]) == [k0] + Moves(q[index + 1..]);
        assert Moves(full[index..]) == [k] + Moves(full[index + 1..]);
        if k0 == k {
          assert r0 == rn;
        }
      } else {
        assert k0 < k;
        FindDirsLeast(b, word, index, path, k0 + 1, full);
      }
    }
  }

  /** `find_word_in_board` returns the least spelling path: the start cells
      are tried in row-major order and, from each cell, the neighbours in
      the order of `Directions`, so no other path spelling the word comes
      before the returned one. */
  lemma FindWordLeast(b: Grid, word: string, p: seq<Cell>)
    requires IsSquare(b) && IsPath(b, p) && Spell(b, p) == Lower(word) && |p| > 0
    ensures FindWordInBoard(b, word).Some?
    ensures PathNotAfter(FindWordInBoard(b, word).value, p)
  {
    FindWordFirstStart(b, word, p);
    var r := FindWordInBoard(b, word).value;
    if r[0] == p[0] {
      assert p[..0] == [];
      FindDfsLeast(b, Lower(word), 0, [], p);
      assert r[0..] == r && p[0..] == p;
    }
  }
}
