/** The game state of `MyGameManager` in `py_boggle/my_game_manager.py`:
    the board, the accepted words, the dictionary and the path of the last
    accepted word, with `new_game` (its validation and the board it draws),
    `set_game`, `add_word` and `get_score` as pure transitions. The board size is always `|board|`. */
module GameManager {
  import opened Wrappers
  import opened Text
  import opened TrieDictionary
  import opened Board
  import opened WordFinder

  /** `CUBE_SIDES`: a line of the cube file describes a cube only when it
      has exactly this many faces. */
  const CubeSides := 6

  datatype Game = Game(board: Grid, words: seq<string>, dictionary: TrieNode, lastAddedWord: Option<seq<Cell>>)

  predicate NoDuplicates(ws: seq<string>)
  {
    forall i, j :: 0 <= i < j < |ws| ==> ws[i] != ws[j]
  }

  /** What `add_word` keeps true of the accepted words: distinct, lowercase,
      long enough to score and in the dictionary. */
  ghost predicate Valid(g: Game)
  {
    && NoDuplicates(g.words)
    && forall i :: 0 <= i < |g.words| ==>
         |g.words[i]| > Short && Lower(g.words[i]) == g.words[i] && Contains(g.dictionary, g.words[i])
  }

  // ---------------------------------------------------------------------
  // new_game

  /** The positions of the face lines that describe a whole cube. */
  function CubeLines(lines: seq<string>): set<nat>
  {
    set i: nat | i < |lines| && |lines[i]| == CubeSides
  }

  /** `cubes` in `new_game`: the face lines lowercased, keeping those with
      exactly `CubeSides` faces, in file order. */
  function Cubes(lines: seq<string>): (cs: seq<string>)
    ensures |cs| == |CubeLines(lines)|
    ensures forall i :: 0 <= i < |cs| ==> |cs[i]| == CubeSides && Lower(cs[i]) == cs[i]
    decreases |lines|
  {
    if lines == [] then []
    else
      var init, last := lines[..|lines| - 1], lines[|lines| - 1];
      CubeLinesLast(lines);
      if |last| == CubeSides then
        LowerIdempotent(last);
        Cubes(init) + [Lower(last)]
      else
        Cubes(init)
  }

  lemma CubeLinesLast(lines: seq<string>)
    requires lines != []
    ensures var n := |lines| - 1;
            CubeLines(lines) == CubeLines(lines[..n]) + (if |lines[n]| == CubeSides then {n} else {})
            && n !in CubeLines(lines[..n])
  {
    var n := |lines| - 1;
    forall i: nat | i < n ensures lines[..n][i] == lines[i] {
    }
  }

  /** A cube of the file is exactly a lowercased face line of `CubeSides`
      faces. */
  lemma {:induction false} CubesMembers(lines: seq<string>, x: string)
    ensures x in Cubes(lines) <==> exists i :: 0 <= i < |lines| && |lines[i]| == CubeSides && Lower(lines[i]) == x
    decreases |lines|
  {
    if lines != [] {
      var init, last := lines[..|lines| - 1], lines[|lines| - 1];
      CubesMembers(init, x);
      if exists i :: 0 <= i < |init| && |init[i]| == CubeSides && Lower(init[i]) == x {
        var i :| 0 <= i < |init| && |init[i]| == CubeSides && Lower(init[i]) == x;
        assert lines[i] == init[i];
      }
      if exists i :: 0 <= i < |lines| && |lines[i]| == CubeSides && Lower(lines[i]) == x {
        var i :| 0 <= i < |lines| && |lines[i]| == CubeSides && Lower(lines[i]) == x;
        if i < |init| {
          assert init[i] == lines[i];
        }
      }
    }
  }

  /** The position `r * size + c` of the shuffled cube that cell `[c][r]`
      of a `size` by `size` board draws from: one of the first
      `size * size`. */
  function CubePos(size: nat, r: nat, c: nat): (k: nat)
    requires r < size && c < size
    ensures k < size * size
  {
    assert r * size <= (size - 1) * size;
    r * size + c
  }

  /** The board `new_game` draws: the cubes in `shuffled` order, and from
      cube `k` the face `picks[k]`, with cell `[c][r]` taken from cube
      `r * size + c`, rows and columns swapped as the comprehension does. */
  function Roll(size: nat, shuffled: seq<string>, picks: seq<nat>): (b: Grid)
    requires size * size <= |shuffled| && |picks| == |shuffled|
    requires forall k :: 0 <= k < |shuffled| ==> |shuffled[k]| == CubeSides
    requires forall k :: 0 <= k < |picks| ==> picks[k] < CubeSides
    ensures |b| == size && IsSquare(b)
    ensures forall c, r :: 0 <= c < size && 0 <= r < size ==>
              b[c][r] == shuffled[CubePos(size, r, c)][picks[CubePos(size, r, c)]]
  {
    seq(size, c requires 0 <= c < size =>
      seq(size, r requires 0 <= r < size =>
        shuffled[CubePos(size, r, c)][picks[CubePos(size, r, c)]]))
  }

  /** A shuffle of the cubes has the same members as the cubes. */
  lemma ShuffledCubes(lines: seq<string>, shuffled: seq<string>)
    requires multiset(shuffled) == multiset(Cubes(lines))
    ensures |shuffled| == |Cubes(lines)|
    ensures forall k :: 0 <= k < |shuffled| ==> shuffled[k] in Cubes(lines)
  {
    assert |shuffled| == |multiset(shuffled)|;
    forall k | 0 <= k < |shuffled| ensures shuffled[k] in Cubes(lines) {
      assert shuffled[k] in multiset(shuffled);
    }
  }

  /** `new_game` on the (stripped) face lines of the cube file. The random
      draw is given: `shuffled` is the order `random.shuffle` put the
      cubes in and `picks[k]` the face `random.choice` took from cube `k`.
      It fails unless the size is at least 2 and there are enough cubes;
      otherwise it starts a round on the drawn `size` by `size` board with
      no words and no last path. */
  function NewGame(size: int, lines: seq<string>, d: TrieNode, shuffled: seq<string>, picks: seq<nat>): (r: Result<Game>)
    requires multiset(shuffled) == multiset(Cubes(lines))
    requires |picks| == |shuffled| && forall k :: 0 <= k < |picks| ==> picks[k] < CubeSides
    ensures r.Ok? <==> size >= 2 && |CubeLines(lines)| >= size * size
    ensures r.Ok? ==> |r.value.board| == size && IsSquare(r.value.board)
    ensures r.Ok? ==> forall c, r' :: 0 <= c < size && 0 <= r' < size ==>
              var k := CubePos(size, r', c);
              k < |shuffled| && picks[k] < |shuffled[k]| && r.value.board[c][r'] == shuffled[k][picks[k]]
    ensures r.Ok? ==> forall c, r' :: 0 <= c < size && 0 <= r' < size ==>
              LowerChar(r.value.board[c][r']) == r.value.board[c][r']
    ensures r.Ok? ==> r.value.words == [] && r.value.dictionary == d && r.value.lastAddedWord == None
    ensures r.Ok? ==> Valid(r.value)
  {
    ShuffledCubes(lines, shuffled);
    if size < 2 || |Cubes(lines)| < size * size then Err("ERROR: Invalid Dimensions (size, cubes)")
    else
      var b := Roll(size, shuffled, picks);
      assert forall c, r' :: 0 <= c < size && 0 <= r' < size ==> LowerChar(b[c][r']) == b[c][r'] by {
        forall c, r' | 0 <= c < size && 0 <= r' < size ensures LowerChar(b[c][r']) == b[c][r'] {
          var k := CubePos(size, r', c);
          var cube := shuffled[k];
          assert cube in Cubes(lines);
          var j :| 0 <= j < |Cubes(lines)| && Cubes(lines)[j] == cube;
          assert Lower(cube) == cube;
          assert b[c][r'] == cube[picks[k]];
        }
      }
      Ok(Game(b, [], d, None))
  }

  /** Every cell of a new board shows a face of one of the file's cube
      lines. */
  lemma NewGameFaces(size: int, lines: seq<string>, d: TrieNode, shuffled: seq<string>, picks: seq<nat>, c: nat, r: nat)
    requires multiset(shuffled) == multiset(Cubes(lines))
    requires |picks| == |shuffled| && forall k :: 0 <= k < |picks| ==> picks[k] < CubeSides
    requires NewGame(size, lines, d, shuffled, picks).Ok? && c < size && r < size
    ensures exists i :: 0 <= i < |lines| && |lines[i]| == CubeSides
              && NewGame(size, lines, d, shuffled, picks).value.board[c][r] in Lower(lines[i])
  {
    ShuffledCubes(lines, shuffled);
    var cube := shuffled[CubePos(size, r, c)];
    CubesMembers(lines, cube);
  }

  // ---------------------------------------------------------------------
  // set_game

  /** `set_game`: installs `rows` lowercased; the accepted words, the
      dictionary and the last path are kept. */
  function SetGame(g: Game, rows: Grid): (r: Game)
    ensures |r.board| == |rows|
    ensures forall i :: 0 <= i < |rows| ==> |r.board[i]| == |rows[i]|
    ensures forall i, j :: 0 <= i < |rows| && 0 <= j < |rows[i]| ==>
              r.board[i][j] == LowerChar(rows[i][j]) && LowerChar(r.board[i][j]) == r.board[i][j]
    ensures IsSquare(rows) ==> IsSquare(r.board)
    ensures r.words == g.words && r.dictionary == g.dictionary && r.lastAddedWord == g.lastAddedWord
    ensures Valid(g) ==> Valid(r)
  {
    g.(board := seq(|rows|, i requires 0 <= i < |rows| => Lower(rows[i])))
  }

  // ---------------------------------------------------------------------
  // get_score

  /** The sum of `len(w) - SHORT` over `words`. */
  function Score(words: seq<string>): int
  {
    if words == [] then 0 else |words[0]| - Short + Score(words[1..])
  }

  function GetScore(g: Game): int
  {
    Score(g.words)
  }

  lemma {:induction false} ScoreAppend(words: seq<string>, w: string)
    ensures Score(words + [w]) == Score(words) + |w| - Short
  {
    if words != [] {
      assert (words + [w])[1..] == words[1..] + [w];
      ScoreAppend(words[1..], w);
    }
  }

  /** Every accepted word scores at least one point. */
  lemma {:induction false} ScoreAtLeastCount(g: Game)
    requires Valid(g)
    ensures GetScore(g) >= |g.words|
    decreases |g.words|
  {
    if g.words != [] {
      var g' := g.(words := g.words[1..]);
      assert Valid(g') by {
        forall i, j | 0 <= i < j < |g'.words| ensures g'.words[i] != g'.words[j] {
          assert g'.words[i] == g.words[i + 1] && g'.words[j] == g.words[j + 1];
        }
        forall i | 0 <= i < |g'.words| ensures |g'.words[i]| > Short {
          assert g'.words[i] == g.words[i + 1];
        }
      }
      ScoreAtLeastCount(g');
      assert |g.words[0]| > Short;
    }
  }

  // ---------------------------------------------------------------------
  // add_word

  /** `add_word`: the lowercased word is accepted when it is longer than
      `SHORT`, not yet accepted, in the dictionary and found on the board;
      it then scores `len(word) - SHORT` and its path becomes the last
      added path. Otherwise nothing changes and it scores 0. */
  function AddWord(g: Game, word: string): (r: (Game, int))
    requires IsSquare(g.board)
    ensures var w := Lower(word);
            var accepted := |w| > Short && w !in g.words && Contains(g.dictionary, w) && OnBoard(g.board, w);
            && (accepted ==>
                  && r.1 == |word| - Short >= 1
                  && r.0 == g.(words := g.words + [w], lastAddedWord := FindWordInBoard(g.board, w)))
            && (!accepted ==> r == (g, 0))
    ensures r.0.lastAddedWord != g.lastAddedWord ==>
              r.0.lastAddedWord.Some? && IsPath(g.board, r.0.lastAddedWord.value)
              && Spell(g.board, r.0.lastAddedWord.value) == Lower(word)
  {
    var w := Lower(word);
    FindWordCorrect(g.board, w);
    LowerIdempotent(word);
    if |w| > Short && w !in g.words && Contains(g.dictionary, w) then
      var location := FindWordInBoard(g.board, w);
      if location.Some? then
        (g.(lastAddedWord := location, words := g.words + [w]), |w| - Short)
      else (g, 0)
    else (g, 0)
  }

  /** `add_word` keeps the accepted words distinct, lowercase, scoring and
      in the dictionary, and adds exactly its result to the score. */
  lemma AddWordInvariant(g: Game, word: string)
    requires IsSquare(g.board)
    ensures Valid(g) ==> Valid(AddWord(g, word).0)
    ensures GetScore(AddWord(g, word).0) == GetScore(g) + AddWord(g, word).1
    ensures AddWord(g, word).1 >= 0
  {
    var w := Lower(word);
    ScoreAppend(g.words, w);
    LowerIdempotent(word);
    var g' := AddWord(g, word).0;
    if Valid(g) && g' != g {
      assert g'.words == g.words + [w];
      forall i, j | 0 <= i < j < |g'.words| ensures g'.words[i] != g'.words[j] {
        if j == |g.words| {
          assert g'.words[i] == g.words[i];
        }
      }
    }
  }

  /** A sequence of `add_word` calls: the final state and the sum of the
      values they returned. */
  function Play(g: Game, attempts: seq<string>): (Game, int)
    requires IsSquare(g.board)
    decreases |attempts|
  {
    if attempts == [] then (g, 0)
    else
      var (g', points) := AddWord(g, attempts[0]);
      var (final, rest) := Play(g', attempts[1..]);
      (final, points + rest)
  }

  lemma {:induction false} PlayScore(g: Game, attempts: seq<string>)
    requires IsSquare(g.board)
    ensures GetScore(Play(g, attempts).0) == GetScore(g) + Play(g, attempts).1
    decreases |attempts|
  {
    if attempts != [] {
      AddWordInvariant(g, attempts[0]);
      PlayScore(AddWord(g, attempts[0]).0, attempts[1..]);
    }
  }

  /** After `new_game`, `get_score()` is the sum of the values `add_word`
      returned since. */
  lemma ScoreSinceNewGame(size: int, lines: seq<string>, d: TrieNode, shuffled: seq<string>, picks: seq<nat>, attempts: seq<string>)
    requires multiset(shuffled) == multiset(Cubes(lines))
    requires |picks| == |shuffled| && forall k :: 0 <= k < |picks| ==> picks[k] < CubeSides
    requires NewGame(size, lines, d, shuffled, picks).Ok?
    ensures GetScore(Play(NewGame(size, lines, d, shuffled, picks).value, attempts).0)
              == Play(NewGame(size, lines, d, shuffled, picks).value, attempts).1
  {
    PlayScore(NewGame(size, lines, d, shuffled, picks).value, attempts);
  }
}
