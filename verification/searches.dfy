/** `dictionary_driven_search` and `board_driven_search` of
    `py_boggle/my_game_manager.py`: exhaustive enumerations of the simple
    paths of the board, collecting the dictionary words longer than `Short`
    that they spell. The first prunes every branch whose string is not a
    dictionary prefix; the second only stops once the string is longer than
    the number of cells. */
module Searches {
  import opened Text
  import opened TrieDictionary
  import opened Board

  /** What a search may collect below a node whose string is `s`. */
  predicate Collectable(d: TrieNode, s: string, w: string)
  {
    |w| > Short && Contains(d, w) && IsPrefixOf(s, w)
  }

  /** The measure `size * size - |visited|` stays a natural number when a
      new in-bounds cell is visited. */
  lemma VisitBound(b: Grid, visited: set<Cell>, c: Cell)
    requires visited <= Cells(|b|) && InBounds(b, c)
    ensures visited + {c} <= Cells(|b|)
    ensures |visited + {c}| <= |b| * |b|
  {
    InCells(|b|, c);
    CellSetBound(|b|, visited + {c});
  }

  lemma ExtendPrefix(s: string, x: char, w: string)
    requires IsPrefixOf(s + [x], w)
    ensures IsPrefixOf(s, w)
  {
    assert w[..|s| + 1][..|s|] == w[..|s|];
  }

  // ---------------------------------------------------------------------
  // dictionary_driven_search

  /** The nested `dfs(row, col, current_string, visited)` of the
      dictionary-driven search, as the set of words it adds. */
  function DictDfs(b: Grid, d: TrieNode, c: Cell, s: string, visited: set<Cell>): (r: set<string>)
    requires IsSquare(b) && visited <= Cells(|b|)
    ensures forall w :: w in r ==> Collectable(d, s, w)
    decreases |b| * |b| - |visited|, 1
  {
    if !IsPrefix(d, s) then {}
    else (if |s| > Short && Contains(d, s) then {s} else {}) + DictDirs(b, d, c, s, visited, 0)
  }

  function DictDirs(b: Grid, d: TrieNode, c: Cell, s: string, visited: set<Cell>, k: nat): (r: set<string>)
    requires IsSquare(b) && visited <= Cells(|b|) && k <= |Directions|
    ensures forall w :: w in r ==> Collectable(d, s, w)
    decreases |b| * |b| - |visited|, 0, |Directions| - k
  {
    if k == |Directions| then {}
    else
      var n := Step(c, k);
      var here :=
        if InBounds(b, n) && n !in visited then
          VisitBound(b, visited, n);
          var found := DictDfs(b, d, n, s + [At(b, n)], visited + {n});
          assert forall w :: w in found ==> Collectable(d, s, w) by {
            forall w | w in found ensures Collectable(d, s, w) {
              ExtendPrefix(s, At(b, n), w);
            }
          }
          found
        else {};
      here + DictDirs(b, d, c, s, visited, k + 1)
  }

  function DictScan(b: Grid, d: TrieNode, row: nat, col: nat): set<string>
    requires IsSquare(b)
    decreases |b| - row, |b| - col
  {
    if row >= |b| then {}
    else if col >= |b| then DictScan(b, d, row + 1, 0)
    else
      var c := Cell(row, col);
      InCells(|b|, c);
      DictDfs(b, d, c, [At(b, c)], {c}) + DictScan(b, d, row, col + 1)
  }

  function DictionaryDrivenSearch(b: Grid, d: TrieNode): set<string>
    requires IsSquare(b)
  {
    DictScan(b, d, 0, 0)
  }

  // ---------------------------------------------------------------------
  // board_driven_search

  /** The nested `dfs` of the board-driven search: no prefix pruning, but a
      cut-off once the string is longer than the number of cells. */
  function BoardDfs(b: Grid, d: TrieNode, c: Cell, s: string, visited: set<Cell>): (r: set<string>)
    requires IsSquare(b) && visited <= Cells(|b|)
    ensures forall w :: w in r ==> Collectable(d, s, w)
    decreases |b| * |b| - |visited|, 1
  {
    (if |s| > Short && Contains(d, s) then {s} else {})
      + (if |s| > |b| * |b| then {} else BoardDirs(b, d, c, s, visited, 0))
  }

  function BoardDirs(b: Grid, d: TrieNode, c: Cell, s: string, visited: set<Cell>, k: nat): (r: set<string>)
    requires IsSquare(b) && visited <= Cells(|b|) && k <= |Directions|
    ensures forall w :: w in r ==> Collectable(d, s, w)
    decreases |b| * |b| - |visited|, 0, |Directions| - k
  {
    if k == |Directions| then {}
    else
      var n := Step(c, k);
      var here :=
        if InBounds(b, n) && n !in visited then
          VisitBound(b, visited, n);
          var found := BoardDfs(b, d, n, s + [At(b, n)], visited + {n});
          assert forall w :: w in found ==> Collectable(d, s, w) by {
            forall w | w in found ensures Collectable(d, s, w) {
              ExtendPrefix(s, At(b, n), w);
            }
          }
          found
        else {};
      here + BoardDirs(b, d, c, s, visited, k + 1)
  }

  function BoardScan(b: Grid, d: TrieNode, row: nat, col: nat): set<string>
    requires IsSquare(b)
    decreases |b| - row, |b| - col
  {
    if row >= |b| then {}
    else if col >= |b| then BoardScan(b, d, row + 1, 0)
    else
      var c := Cell(row, col);
      InCells(|b|, c);
      BoardDfs(b, d, c, [At(b, c)], {c}) + BoardScan(b, d, row, col + 1)
  }

  function BoardDrivenSearch(b: Grid, d: TrieNode): set<string>
    requires IsSquare(b)
  {
    BoardScan(b, d, 0, 0)
  }

  // ---------------------------------------------------------------------
  // The two searches agree

  /** Below a node whose string has one letter per visited cell, the two
      searches collect the same words: the cut-off of the board-driven
      search never fires, and a branch the dictionary-driven search prunes
      holds no dictionary word because contained words have only valid
      prefixes. */
  lemma {:induction false} AgreeDfs(b: Grid, d: TrieNode, c: Cell, s: string, visited: set<Cell>)
    requires IsSquare(b) && visited <= Cells(|b|) && |s| == |visited|
    ensures BoardDfs(b, d, c, s, visited) == DictDfs(b, d, c, s, visited)
    decreases |b| * |b| - |visited|, 1
  {
    CellSetBound(|b|, visited);
    var found := BoardDfs(b, d, c, s, visited);
    if found != {} {
      var w :| w in found;
      ContainsPrefixes(d, w, s);
    }
    if IsPrefix(d, s) {
      AgreeDirs(b, d, c, s, visited, 0);
    } else {
      assert found == {};
    }
  }

  lemma {:induction false} AgreeDirs(b: Grid, d: TrieNode, c: Cell, s: string, visited: set<Cell>, k: nat)
    requires IsSquare(b) && visited <= Cells(|b|) && |s| == |visited| && k <= |Directions|
    ensures BoardDirs(b, d, c, s, visited, k) == DictDirs(b, d, c, s, visited, k)
    decreases |b| * |b| - |visited|, 0, |Directions| - k
  {
    if k < |Directions| {
      var n := Step(c, k);
      if InBounds(b, n) && n !in visited {
        VisitBound(b, visited, n);
        AgreeDfs(b, d, n, s + [At(b, n)], visited + {n});
      }
      AgreeDirs(b, d, c, s, visited, k + 1);
    }
  }

  lemma {:induction false} AgreeScan(b: Grid, d: TrieNode, row: nat, col: nat)
    requires IsSquare(b)
    ensures BoardScan(b, d, row, col) == DictScan(b, d, row, col)
    decreases |b| - row, |b| - col
  {
    if row < |b| {
      if col >= |b| {
        AgreeScan(b, d, row + 1, 0);
      } else {
        var c := Cell(row, col);
        InCells(|b|, c);
        AgreeDfs(b, d, c, [At(b, c)], {c});
        AgreeScan(b, d, row, col + 1);
      }
    }
  }

  /** `board_driven_search()` returns the same set as
      `dictionary_driven_search()`. */
  lemma SearchesAgree(b: Grid, d: TrieNode)
    requires IsSquare(b)
    ensures BoardDrivenSearch(b, d) == DictionaryDrivenSearch(b, d)
  {
    AgreeScan(b, d, 0, 0);
  }

  // ---------------------------------------------------------------------
  // What the dictionary-driven search finds

  /** The recursion state `(c, s, visited)` is the end, the spelling and the
      cell set of the simple path `p` walked so far. */
  ghost predicate Frame(b: Grid, p: seq<Cell>, c: Cell, s: string, visited: set<Cell>)
    requires IsSquare(b)
  {
    && IsPath(b, p) && |p| > 0 && p[|p| - 1] == c
    && Spell(b, p) == s && visited == Elems(p)
  }

  /** Walking on to an unvisited in-bounds neighbour keeps the frame. */
  lemma FrameStep(b: Grid, p: seq<Cell>, c: Cell, s: string, visited: set<Cell>, n: Cell)
    requires IsSquare(b) && Frame(b, p, c, s, visited)
    requires Adjacent(c, n) && InBounds(b, n) && n !in visited
    ensures Frame(b, p + [n], n, s + [At(b, n)], visited + {n})
  {
    var p' := p + [n];
    assert Elems(p') == visited + {n};
    assert Spell(b, p') == s + [At(b, n)];
  }

  lemma {:induction false} DictDfsSound(b: Grid, d: TrieNode, c: Cell, s: string, visited: set<Cell>, p: seq<Cell>, w: string)
    returns (full: seq<Cell>)
    requires IsSquare(b) && visited <= Cells(|b|) && Frame(b, p, c, s, visited)
    requires w in DictDfs(b, d, c, s, visited)
    ensures IsPath(b, full) && Spell(b, full) == w
    decreases |b| * |b| - |visited|, 1
  {
    if w == s {
      full := p;
    } else {
      full := DictDirsSound(b, d, c, s, visited, 0, p, w);
    }
  }

  lemma {:induction false} DictDirsSound(b: Grid, d: TrieNode, c: Cell, s: string, visited: set<Cell>, k: nat, p: seq<Cell>, w: string)
    returns (full: seq<Cell>)
    requires IsSquare(b) && visited <= Cells(|b|) && k <= |Directions| && Frame(b, p, c, s, visited)
    requires w in DictDirs(b, d, c, s, visited, k)
    ensures IsPath(b, full) && Spell(b, full) == w
    decreases |b| * |b| - |visited|, 0, |Directions| - k
  {
    var n := Step(c, k);
    VisitBoundIf(b, visited, n);
    if InBounds(b, n) && n !in visited && w in DictDfs(b, d, n, s + [At(b, n)], visited + {n}) {
      StepAdjacent(c, k);
      VisitBound(b, visited, n);
      FrameStep(b, p, c, s, visited, n);
      full := DictDfsSound(b, d, n, s + [At(b, n)], visited + {n}, p + [n], w);
    } else {
      full := DictDirsSound(b, d, c, s, visited, k + 1, p, w);
    }
  }

  lemma VisitBoundIf(b: Grid, visited: set<Cell>, n: Cell)
    requires visited <= Cells(|b|)
    ensures InBounds(b, n) ==> visited + {n} <= Cells(|b|)
  {
    if InBounds(b, n) {
      VisitBound(b, visited, n);
    }
  }

  lemma {:induction false} DictDirsIncludes(b: Grid, d: TrieNode, c: Cell, s: string, visited: set<Cell>, k0: nat, k: nat, w: string)
    requires IsSquare(b) && visited <= Cells(|b|) && k0 <= k < |Directions|
    requires InBounds(b, Step(c, k)) && Step(c, k) !in visited
    requires visited + {Step(c, k)} <= Cells(|b|)
    requires w in DictDfs(b, d, Step(c, k), s + [At(b, Step(c, k))], visited + {Step(c, k)})
    ensures w in DictDirs(b, d, c, s, visited, k0)
    decreases k - k0
  {
    if k0 < k {
      DictDirsIncludes(b, d, c, s, visited, k0 + 1, k, w);
    }
  }

  /** The next cell of a simple path that extends the frame's path `p` is
      an unvisited in-bounds neighbour of its last cell, in some direction. */
  lemma NextOnPath(b: Grid, p: seq<Cell>, c: Cell, s: string, visited: set<Cell>, full: seq<Cell>)
    returns (k: nat)
    requires IsSquare(b) && Frame(b, p, c, s, visited)
    requires IsPath(b, full) && |p| < |full| && full[..|p|] == p
    ensures k < |Directions| && Step(c, k) == full[|p|]
    ensures InBounds(b, full[|p|]) && full[|p|] !in visited
    ensures full[..|p| + 1] == p + [full[|p|]]
  {
    var n := full[|p|];
    PathNext(b, full, |p|);
    assert full[|p| - 1] == p[|p| - 1] == c;
    k := DirOf(c, n);
    assert full[..|p| + 1] == p + [n];
  }

  lemma {:induction false} DictDfsComplete(b: Grid, d: TrieNode, c: Cell, s: string, visited: set<Cell>, p: seq<Cell>, full: seq<Cell>, w: string)
    requires IsSquare(b) && visited <= Cells(|b|) && Frame(b, p, c, s, visited)
    requires IsPath(b, full) && Spell(b, full) == w && |p| <= |full| && full[..|p|] == p
    requires |w| > Short && Contains(d, w)
    ensures w in DictDfs(b, d, c, s, visited)
    decreases |full| - |p|
  {
    assert IsPrefixOf(s, w);
    ContainsPrefixes(d, w, s);
    if |p| < |full| {
      var n := full[|p|];
      var k := NextOnPath(b, p, c, s, visited, full);
      StepAdjacent(c, k);
      FrameStep(b, p, c, s, visited, n);
      VisitBound(b, visited, n);
      DictDfsComplete(b, d, n, s + [At(b, n)], visited + {n}, p + [n], full, w);
      DictDirsIncludes(b, d, c, s, visited, 0, k, w);
    } else {
      assert full == p;
    }
  }

  lemma {:induction false} DictScanSound(b: Grid, d: TrieNode, row: nat, col: nat, w: string) returns (c: Cell)
    requires IsSquare(b) && w in DictScan(b, d, row, col)
    ensures InBounds(b, c) && {c} <= Cells(|b|) && w in DictDfs(b, d, c, [At(b, c)], {c})
    decreases |b| - row, |b| - col
  {
    if col >= |b| {
      c := DictScanSound(b, d, row + 1, 0, w);
    } else {
      var start := Cell(row, col);
      InCells(|b|, start);
      if w in DictDfs(b, d, start, [At(b, start)], {start}) {
        c := start;
      } else {
        c := DictScanSound(b, d, row, col + 1, w);
      }
    }
  }

  lemma {:induction false} DictScanComplete(b: Grid, d: TrieNode, row: nat, col: nat, start: Cell, w: string)
    requires IsSquare(b) && InBounds(b, start) && NotBefore(row, col, start)
    requires {start} <= Cells(|b|) && w in DictDfs(b, d, start, [At(b, start)], {start})
    ensures w in DictScan(b, d, row, col)
    decreases |b| - row, |b| - col
  {
    if col >= |b| {
      DictScanComplete(b, d, row + 1, 0, start, w);
    } else if Cell(row, col) != start {
      DictScanComplete(b, d, row, col + 1, start, w);
    }
  }

  /** `dictionary_driven_search()` returns exactly the dictionary words
      longer than `Short` that some simple path of adjacent cells spells. */
  lemma DictionaryDrivenSearchCorrect(b: Grid, d: TrieNode, w: string)
    requires IsSquare(b)
    ensures w in DictionaryDrivenSearch(b, d) <==> |w| > Short && Contains(d, w) && OnBoard(b, w)
  {
    if w in DictionaryDrivenSearch(b, d) {
      var c := DictScanSound(b, d, 0, 0, w);
      var full := DictDfsSound(b, d, c, [At(b, c)], {c}, [c], w);
    }
    if |w| > Short && Contains(d, w) && OnBoard(b, w) {
      var p :| IsPath(b, p) && Spell(b, p) == w;
      var c := p[0];
      InCells(|b|, c);
      assert p[..1] == [c];
      assert Spell(b, [c]) == [At(b, c)];
      DictDfsComplete(b, d, c, [At(b, c)], {c}, [c], p, w);
      DictScanComplete(b, d, 0, 0, c, w);
    }
  }

  /** The same characterisation for `board_driven_search()`. */
  lemma BoardDrivenSearchCorrect(b: Grid, d: TrieNode, w: string)
    requires IsSquare(b)
    ensures w in BoardDrivenSearch(b, d) <==> |w| > Short && Contains(d, w) && OnBoard(b, w)
  {
    SearchesAgree(b, d);
    DictionaryDrivenSearchCorrect(b, d, w);
  }
}
