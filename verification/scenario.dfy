/** The two-by-two board
      c a
      t s
    with a dictionary loaded from the lines "cat" and "cats". */
module Scenario {
  import opened Wrappers
  import opened Text
  import opened TrieDictionary
  import opened Board
  import opened WordFinder
  import opened Searches

  const CatBoard: Grid := [['c', 'a'], ['t', 's']]

  const CatLines: seq<string> := ["cat", "cats"]

  /** From `a`, the search tries down (`s`), left (`c`, already used), and
      then down-left, where it finds `t`. */
  lemma LocateCatFromA()
    ensures FindDfs(CatBoard, "cat", Cell(0, 1), 1, [Cell(0, 0)])
              == Some([Cell(0, 0), Cell(0, 1), Cell(1, 0)])
  {
    var w := "cat";
    var p1 := [Cell(0, 0), Cell(0, 1)];
    var p2 := p1 + [Cell(1, 0)];
    assert [Cell(0, 0)] + [Cell(0, 1)] == p1;
    assert p2 == [Cell(0, 0), Cell(0, 1), Cell(1, 0)];
    assert FindDirs(CatBoard, w, Cell(1, 0), 2, p2, 0) == Some(p2);
    assert FindDfs(CatBoard, w, Cell(1, 0), 2, p1) == Some(p2);
    assert FindDirs(CatBoard, w, Cell(0, 1), 1, p1, 6) == Some(p2);
    assert FindDfs(CatBoard, w, Cell(1, 1), 2, p1) == None;
    assert FindDfs(CatBoard, w, Cell(0, 0), 2, p1) == None;
    assert FindDirs(CatBoard, w, Cell(0, 1), 1, p1, 0) == Some(p2);
    assert InBounds(CatBoard, Cell(0, 1)) && Cell(0, 1) !in [Cell(0, 0)];
    assert At(CatBoard, Cell(0, 1)) == 'a' == w[1];
    assert FindDfs(CatBoard, w, Cell(0, 1), 1, [Cell(0, 0)])
             == FindDirs(CatBoard, w, Cell(0, 1), 1, [Cell(0, 0)] + [Cell(0, 1)], 0);
  }

  /** `find_word_in_board("cat")` starts at `c`, goes right to `a`, then
      diagonally down-left to `t`. */
  lemma LocateCat()
    ensures FindWordInBoard(CatBoard, "cat") == Some([Cell(0, 0), Cell(0, 1), Cell(1, 0)])
  {
    var w := "cat";
    var p0 := [Cell(0, 0)];
    var p2 := [Cell(0, 0), Cell(0, 1), Cell(1, 0)];
    assert Lower(w) == w;
    LocateCatFromA();
    assert FindDfs(CatBoard, w, Cell(1, 0), 1, p0) == None;
    assert FindDirs(CatBoard, w, Cell(0, 0), 0, p0, 0) == Some(p2);
    assert [] + [Cell(0, 0)] == p0;
    assert FindDfs(CatBoard, w, Cell(0, 0), 0, []) == Some(p2);
    assert FindFrom(CatBoard, w, 0, 0) == Some(p2);
  }

  lemma CatsOnBoard()
    ensures OnBoard(CatBoard, "cats")
  {
    var p := [Cell(0, 0), Cell(0, 1), Cell(1, 0), Cell(1, 1)];
    assert Spell(CatBoard, p) == "cats";
    assert IsPath(CatBoard, p);
  }

  lemma CatsInDictionary()
    ensures Contains(Load(CatLines), "cats")
  {
    assert "cats" in CatLines && Lower("cats") == "cats";
    LoadContains(CatLines, "cats");
  }

  /** Both searches find "cats": c, a, t, then right to s. */
  lemma CatsFound()
    ensures "cats" in DictionaryDrivenSearch(CatBoard, Load(CatLines))
    ensures "cats" in BoardDrivenSearch(CatBoard, Load(CatLines))
  {
    var d := Load(CatLines);
    CatsOnBoard();
    CatsInDictionary();
    DictionaryDrivenSearchCorrect(CatBoard, d, "cats");
    SearchesAgree(CatBoard, d);
  }

  /** Neither search returns "cat": it is in the dictionary and on the
      board, but too short to score. */
  lemma CatTooShort()
    ensures "cat" !in DictionaryDrivenSearch(CatBoard, Load(CatLines))
    ensures "cat" !in BoardDrivenSearch(CatBoard, Load(CatLines))
  {
    var d := Load(CatLines);
    DictionaryDrivenSearchCorrect(CatBoard, d, "cat");
    SearchesAgree(CatBoard, d);
  }
}
