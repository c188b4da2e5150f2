# Boggle solver core in Dafny

A Dafny model of the solving core of a Boggle game written in Python: the
trie dictionary (`py_boggle/trie_dictionary.py`) and the board searches and
word bookkeeping of `MyGameManager` (`py_boggle/my_game_manager.py`).

Everything is immutable data and pure functions:

- `TrieDictionary` (`trie.dfy`): a trie node is `TrieNode(children: map<char, TrieNode>, isWord)`.
  Loading a dictionary is a fold of `LoadLine` (lowercase, then `Insert`) over
  the already-stripped lines. `Traverse`, `IsPrefix` and `Contains` lowercase
  their argument and walk child links. The iterator is the sequence `Iterate`
  produced by the pre-order `Dfs`, which visits children in increasing letter
  order (`SortedKeys`). `GetAllWords` is its set. The lemmas relate the trie
  to the set of loaded lines: membership, prefixes, case-insensitivity,
  prefix-closure, and the strict lexicographic order of iteration.
- `Board` (`board.dfy`): the square board `seq<seq<char>>`, cells,
  the eight neighbour offsets in the source's order, and the declarative
  predicate `OnBoard(b, w)`: some simple path of in-bounds, pairwise-distinct,
  8-adjacent cells spells `w`.
- `WordFinder` (`word_finder.dfy`): `find_word_in_board` as the mutually
  recursive `FindDfs`/`FindDirs` (measure `|word| - index`). Start cells are
  tried in row-major order by `FindFrom`. Soundness is in the contracts.
  Completeness is the lemma `FindWordCorrect`. `FindWordLeast` pins down
  which path is returned: the first start cell in row-major order, then the
  least sequence of neighbour directions.
- `Searches` (`searches.dfy`): `dictionary_driven_search` (`DictDfs`, pruned
  by `IsPrefix`) and `board_driven_search` (`BoardDfs`, cut off past
  `size * size` letters). Both use the measure `size * size - |visited|`.
  The central theorems are:
  - both searches return exactly the dictionary words longer than `Short`
    that lie on the board;
  - the two searches return the same set.
  The pruning loses nothing because the trie is prefix-closed. The cut-off
  never fires because a simple path has at most `size * size` cells.
- `GameManager` (`game_manager.dfy`): the game state and the transitions
  `NewGame` (its validation, and the board it draws from the cube lines),
  `SetGame`, `AddWord` and `GetScore`.
- `Scenario` (`scenario.dfy`): the 2 by 2 board `c a / t s` with the
  dictionary `cat`, `cats`, worked through the model.

The board size is always `|board|`: `set_game` sets `size = len(board)`, and
`NewGame` is proved to build a `size` by `size` board of lowercase faces. The
searches take a square board (`IsSquare`). The dictionary the manager
queries is the trie model.

Three facts about the code that the model states as they are:

- `find_word_in_board` consults neither the dictionary nor the length of the
  word. So `FindWordCorrect` states: a path is found iff the word is
  non-empty and some simple path spells it (lowercased).
- Only `new_game` checks `size >= 2`. `set_game` accepts any board, and so do
  the searches here.
- Both searches keep only words longer than `SHORT = 3` letters. On the
  board `c a / t s` with the dictionary `cat`, `cats` they return `cats` and
  never `cat` (`Scenario.CatsFound`, `Scenario.CatTooShort`).

## Model

| member | source | states |
|---|---|---|
| TrieDictionary.InsertStored | py_boggle/trie_dictionary.py:29-34 | after inserting `w`, a string is stored iff it is `w` or was stored before: exactly one word is added |
| TrieDictionary.InsertWalk | py_boggle/trie_dictionary.py:29-34 | after inserting `w`, a string can be walked iff it is a prefix of `w` or could be walked before |
| TrieDictionary.LoadLineContains | py_boggle/trie_dictionary.py:28-34 | after loading a line, `contains(line)` holds, and `contains(v)` holds iff `v` equals the line up to case or held before |
| TrieDictionary.LoadContains | py_boggle/trie_dictionary.py:27-34 | a loaded dictionary contains `v` iff some loaded line equals `v` up to case |
| TrieDictionary.BlankLineFlagsRoot | py_boggle/trie_dictionary.py:28-34 | a blank line flags the root, so the empty string is contained |
| TrieDictionary.LoadIsPrefix | py_boggle/trie_dictionary.py:51-55 | on a loaded dictionary, `is_prefix(p)` holds iff `p` is empty or, lowercased, starts some lowercased loaded line |
| TrieDictionary.WalkExtend | py_boggle/trie_dictionary.py:44-49 | walking one more letter moves to that letter's child, and yields None as soon as the letter has no child |
| TrieDictionary.PrefixClosed | py_boggle/trie_dictionary.py:44-55 | `is_prefix(p + s)` implies `is_prefix(p)`; once `traverse(p)` is None so is `traverse(p + s)` |
| TrieDictionary.ContainsPrefixes | py_boggle/trie_dictionary.py:51-62 | `contains(w)` implies `is_prefix(w)` and `is_prefix(q)` for every prefix `q` of `w` |
| TrieDictionary.CaseInsensitive | py_boggle/trie_dictionary.py:38-62 | `traverse`, `is_prefix` and `contains` give the same answer on `w` and on `lower(w)` |
| TrieDictionary.SortedKeys | py_boggle/trie_dictionary.py:71 | the children's letters in strictly increasing order, each letter of the map exactly once |
| TrieDictionary.DfsMembers | py_boggle/trie_dictionary.py:68-72 | `dfs(node, prefix)` yields `w` iff `w` starts with `prefix` and the rest of `w` is a word stored below `node` |
| TrieDictionary.IterateMembers | py_boggle/trie_dictionary.py:64-75 | iteration yields exactly the stored words |
| TrieDictionary.IterateSorted | py_boggle/trie_dictionary.py:64-75 | iteration is strictly increasing in Python's string order |
| TrieDictionary.IterateNoDuplicatesPrefixFirst | py_boggle/trie_dictionary.py:68-72 | no word is yielded twice, and a word is yielded before each of its extensions |
| TrieDictionary.GetAllWordsOfLoad | py_boggle/trie_dictionary.py:77-82 | `get_all_words()` of a loaded dictionary is the set of lowercased loaded lines, i.e. the lowercase strings it contains |
| TrieDictionary.Insert | py_boggle/trie_dictionary.py:29-34 | no contract of its own; characterised by `InsertStored` and `InsertWalk` |
| TrieDictionary.LoadLine | py_boggle/trie_dictionary.py:28-34 | no contract of its own; characterised by `LoadLineContains` |
| TrieDictionary.LoadLines | py_boggle/trie_dictionary.py:27-34 | no contract of its own; characterised by `LoadContains` and `LoadIsPrefix` |
| TrieDictionary.Load | py_boggle/trie_dictionary.py:27-34 | no contract of its own; characterised by `LoadContains`, `LoadIsPrefix` and `BlankLineFlagsRoot` |
| TrieDictionary.Traverse | py_boggle/trie_dictionary.py:38-49 | no contract of its own; characterised by `WalkExtend`, `PrefixClosed` and `CaseInsensitive` |
| TrieDictionary.IsPrefix | py_boggle/trie_dictionary.py:51-55 | no contract of its own; characterised by `LoadIsPrefix`, `PrefixClosed` and `ContainsPrefixes` |
| TrieDictionary.Contains | py_boggle/trie_dictionary.py:57-62 | no contract of its own; characterised by `LoadContains` and `CaseInsensitive` |
| TrieDictionary.Dfs | py_boggle/trie_dictionary.py:68-72 | no contract of its own; characterised by `DfsMembers` and `DfsSorted` |
| TrieDictionary.Iterate | py_boggle/trie_dictionary.py:64-75 | no contract of its own; characterised by `IterateMembers`, `IterateSorted` and `IterateNoDuplicatesPrefixFirst` |
| TrieDictionary.GetAllWords | py_boggle/trie_dictionary.py:77-82 | no contract of its own; characterised by `GetAllWordsOfLoad` |
| Board.DirOf | py_boggle/my_game_manager.py:62 | a cell is 8-adjacent iff one of the eight offsets tried leads to it, and exactly one does |
| Board.PathLength | py_boggle/my_game_manager.py:141 | a simple in-bounds path has at most `size * size` cells |
| WordFinder.FindDfs | py_boggle/my_game_manager.py:48-67 | a returned path extends `path` with new, in-bounds, adjacent cells that spell `word[index..]`, starting at the given cell |
| WordFinder.FindDirs | py_boggle/my_game_manager.py:61-66 | a path returned from the direction loop continues from a neighbour of the current cell |
| WordFinder.FindFrom | py_boggle/my_game_manager.py:69-75 | the row-major scan returns only non-empty paths that spell the whole word, and the path it returns is the one found from its own first cell, which is not before the scan's starting position |
| WordFinder.FindWordInBoard | py_boggle/my_game_manager.py:40-75 | a returned path has length `len(word) > 0`, is simple and 8-adjacent, and spells `lower(word)`; so `""` gives None |
| WordFinder.FindDfsComplete | py_boggle/my_game_manager.py:48-67 | if a simple path continues `path` from the given cell and spells the word, the search from there finds a path |
| WordFinder.FindWordCorrect | py_boggle/my_game_manager.py:40-75 | a path is found iff the word is non-empty and some simple adjacent path spells it lowercased |
| WordFinder.FindWordFirstStart | py_boggle/my_game_manager.py:69-74 | the returned path starts at the row-major-first cell from which any spelling path starts |
| WordFinder.FindDfsLeast | py_boggle/my_game_manager.py:48-67 | from a cell of a spelling path, the search succeeds and the directions it takes are lexicographically no later than the path's: neighbours are tried in the fixed order and the first success is kept |
| WordFinder.FindDirsLeast | py_boggle/my_game_manager.py:61-66 | the direction loop started at a direction no later than the one a spelling path takes returns a path whose directions are no later than that path's |
| WordFinder.FindWordLeast | py_boggle/my_game_manager.py:40-75 | the returned path comes no later than any path spelling the word: earlier start cell in row-major order, or the same start and no later sequence of directions |
| Searches.DictScan | py_boggle/my_game_manager.py:124-128 | no contract of its own; characterised by `DictScanSound`, `DictScanComplete` and `AgreeScan` |
| Searches.DictionaryDrivenSearch | py_boggle/my_game_manager.py:101-129 | no contract of its own; characterised by `DictionaryDrivenSearchCorrect` |
| Searches.BoardScan | py_boggle/my_game_manager.py:148-152 | no contract of its own; characterised by `AgreeScan` |
| Searches.BoardDrivenSearch | py_boggle/my_game_manager.py:131-153 | no contract of its own; characterised by `SearchesAgree` and `BoardDrivenSearchCorrect` |
| Searches.DictDfs | py_boggle/my_game_manager.py:109-122 | every word the pruned search adds below a string `s` is longer than `SHORT`, in the dictionary and starts with `s` |
| Searches.BoardDfs | py_boggle/my_game_manager.py:138-146 | every word the unpruned search adds below `s` is longer than `SHORT`, in the dictionary and starts with `s` |
| Searches.DictDfsComplete | py_boggle/my_game_manager.py:109-122 | every dictionary word longer than `SHORT` spelled by a simple path extending the current one is added |
| Searches.DictionaryDrivenSearchCorrect | py_boggle/my_game_manager.py:101-129 | `dictionary_driven_search()` contains `w` iff `len(w) > SHORT`, `contains(w)` and some simple adjacent path spells `w` |
| Searches.AgreeDfs | py_boggle/my_game_manager.py:138-146 | below a node with one letter per visited cell, the unpruned search adds the same words as the pruned one |
| Searches.SearchesAgree | py_boggle/my_game_manager.py:131-153 | `board_driven_search()` equals `dictionary_driven_search()`; the `size * size` cut-off removes nothing |
| Searches.BoardDrivenSearchCorrect | py_boggle/my_game_manager.py:131-153 | `board_driven_search()` contains `w` iff `len(w) > SHORT`, `contains(w)` and some simple adjacent path spells `w` |
| GameManager.Cubes | py_boggle/my_game_manager.py:24-26 | the cubes are as many as the face lines of exactly `CUBE_SIDES` letters, each of `CUBE_SIDES` lowercase letters |
| GameManager.CubesMembers | py_boggle/my_game_manager.py:24-26 | a string is a cube iff it is a lowercased face line of exactly `CUBE_SIDES` letters |
| GameManager.NewGame | py_boggle/my_game_manager.py:21-34 | fails iff `size < 2` or there are fewer than `size * size` cubes; otherwise the board is `size` by `size`, cell `[c][r]` is the chosen face of shuffled cube `r * size + c`, every cell is lowercase, and the round starts with no words, no last path and the given dictionary |
| GameManager.NewGameFaces | py_boggle/my_game_manager.py:24-31 | every cell of a new board is a face of one of the file's six-face lines |
| GameManager.SetGame | py_boggle/my_game_manager.py:92-95 | installs the rows with every cell lowercased; the words, the dictionary and the last path are kept (words are not reset) |
| GameManager.AddWord | py_boggle/my_game_manager.py:77-86 | accepts iff the lowercased word is longer than `SHORT`, not yet accepted, in the dictionary and on the board; then returns `len(word) - SHORT >= 1`, appends the word and records its path; otherwise returns 0 and changes nothing |
| GameManager.AddWordInvariant | py_boggle/my_game_manager.py:77-86 | `add_word` keeps the words distinct, lowercase, scoring and in the dictionary, and raises the score by exactly what it returns |
| GameManager.Score | py_boggle/my_game_manager.py:97-99 | no contract of its own; characterised by `ScoreAppend` and `ScoreAtLeastCount` |
| GameManager.GetScore | py_boggle/my_game_manager.py:97-99 | no contract of its own; characterised by `AddWordInvariant`, `PlayScore` and `ScoreSinceNewGame` |
| GameManager.ScoreAtLeastCount | py_boggle/my_game_manager.py:97-99 | with valid words, `get_score()` is at least the number of accepted words |
| GameManager.PlayScore | py_boggle/my_game_manager.py:97-99 | after a sequence of `add_word` calls, the score grew by the sum of their results |
| GameManager.ScoreSinceNewGame | py_boggle/my_game_manager.py:97-99 | after `new_game`, `get_score()` equals the sum of the `add_word` results since |
| Scenario.LocateCat | py_boggle/my_game_manager.py:40-75 | on the board `c a / t s`, `find_word_in_board("cat")` returns `[(0,0), (0,1), (1,0)]` |
| Scenario.CatsFound | py_boggle/my_game_manager.py:101-153 | on that board with the dictionary `cat`, `cats`, both searches return `cats` |
| Scenario.CatTooShort | py_boggle/my_game_manager.py:101-153 | on that board, neither search returns `cat`, which is too short to score |

## Left out

- File reading in `load_dictionary` and `new_game`, and the `OSError` re-raise, are I/O. A dictionary is loaded from a sequence of lines, and `new_game` receives its face lines.
- `str.strip` and Unicode `str.lower` are not modelled. Dictionary lines reach `Load`, and cube face lines reach `NewGame` and `Cubes`, already stripped; the six-face length is measured on the stripped line. Lowercasing maps ASCII `A`-`Z` only.
- The randomness of `new_game` (`random.shuffle`, `random.choice`) is not modelled. `NewGame` takes its outcome as parameters: `shuffled`, any reordering of the cubes, and `picks`, any face index per cube. Every outcome the random calls can produce is allowed, and no distribution is modelled.
- `get_board` and `get_last_added_word` only read a field. They are the `board` and `lastAddedWord` fields of `Game`.
- The constructor's state with no dictionary (`None`) is not modelled; a `Game` always holds a trie.
- The base classes `BoggleGame` and `BoggleDictionary` are not part of this model. The manager's dictionary is the trie model.
- Multi-character board cells are not modelled; a cell is one `char`.
- Aliasing of the mutable path list is not modelled. Paths are values, and the path the search returns is the list at the moment of return.
- The relative cost of the two searches is not modelled.
- A separate `size` field is not kept. The searches require a square board, where `size == len(board)`. On a board with short rows the source would raise `IndexError`, and boards with longer rows are not modelled.
