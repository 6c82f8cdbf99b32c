# MetalParser line tokenizer

This project models the tokenizer of `MetalParser`, the parser of the "metal"
build-description files in the shuriken repository (`s.py`). Each line of a
description is split on the space character and the empty pieces are thrown
away. What is left are the words of the directive on that line. `parse` does
this to every line of a file in turn. `parse_exec` is a stub that returns the
string `"parsed"`.

Two modules:

- `PyStr` (`pystr.dfy`) gives, as functions, the two Python built-ins the
  tokenizer calls: `s.split(sep)` for a one-character separator (`Split`) and
  `list(filter(None, xs))` over strings (`DropEmpty`). It also defines
  `Join` (`sep.join(parts)`) and `Concat` (`"".join(parts)`). The tokenizer
  does not call these two; they are there so the round-trip and
  concatenation properties can be stated. Lemmas tie `Split` and `Join`
  together in both directions and state how `Split` and `DropEmpty` behave on
  concatenations.
- `MetalParser` (`metal_parser.dfy`) holds `SepWords` (the model of
  `_sep_words`), `ParseLines` (the per-line step of `parse`, with the printing
  removed) and `ParseExec`. It also holds `Scan`, a separate left-to-right
  tokenizer, and proves that `SepWords` agrees with it. The lemmas give the
  properties of the tokenizer: the words are non-empty and hold no space; run
  together they give the line without its spaces; a line of only spaces gives
  no words; every character other than a space stays inside a word; and
  joining the words with single spaces and tokenizing again gives the same
  words.

Only the space character separates words: `_sep_words` calls
`line.split(' ')`, so a tab stays inside a word (`SepWordsNoSpace`).

## Model

| member | source | states |
|---|---|---|
| `PyStr.Split` | s.py:28 | `line.split(' ')`: one more piece than there are separators, and no piece holds the separator |
| `PyStr.DropEmpty` | s.py:28 | `filter(None, ...)`: every surviving string is non-empty, a string survives exactly when it was in the input and non-empty, the result is no longer than the input |
| `PyStr.JoinSplit` | s.py:28 | joining the pieces of a split with the separator gives back the original string, so splitting loses nothing |
| `PyStr.SplitJoin` | s.py:28 | splitting separator-free parts joined by the separator gives the same parts back |
| `PyStr.SplitNoSep` | s.py:28 | a string without the separator splits into the single piece that is the string itself, the empty string into `[""]` |
| `PyStr.SplitAppend` | s.py:28 | each separator cuts the string: the pieces of `a + sep + b` are the pieces of `a` followed by the pieces of `b` |
| `PyStr.ConcatSplit` | s.py:28 | the pieces of a split run together are the string with every separator removed and nothing else changed |
| `PyStr.ConcatDropEmpty` | s.py:28 | dropping empty strings does not change what the list runs together to |
| `PyStr.DropEmptyAppend` | s.py:28 | filtering a concatenation filters each part in turn, keeping order |
| `PyStr.DropEmptyKeeps` | s.py:28 | a list with no empty strings passes the filter unchanged |
| `MetalParser.SepWords` | s.py:27-28 | `_sep_words`: every word is non-empty, no word holds a space, and the words run together are the line with every space removed and every other character kept in order |
| `MetalParser.SepWordsEmptyIff` | s.py:27-28 | a line gives no words if and only if every character of it is a space (the empty line included) |
| `MetalParser.SepWordsNoSpace` | s.py:27-28 | a non-empty line without a space gives exactly one word, the whole line, and the empty line gives none, so tabs and all other characters are never separators |
| `MetalParser.SepWordsAppend` | s.py:27-28 | a space between two strings separates their words: the words of `a + " " + b` are the words of `a` then the words of `b` |
| `MetalParser.SepWordsJoin` | s.py:27-28 | non-empty, space-free words joined by single spaces are tokenized back into the same words |
| `MetalParser.SepWordsIdempotent` | s.py:27-28 | tokenizing the words of a line joined by single spaces gives the words of the line again |
| `MetalParser.SepWordsScanFrom` | s.py:27-28 | tokenizing a partial word followed by the rest of a line agrees with the left-to-right scanner started from that partial word |
| `MetalParser.SepWordsScan` | s.py:27-28 | the words are the maximal runs of non-space characters of the line, in left-to-right order, as the scanner `Scan` finds them |
| `MetalParser.ParseLines` | s.py:5-10 | the per-line step of `parse`: one word list per line, and the i-th is `SepWords` of the i-th line |
| `MetalParser.ParseLinesAppend` | s.py:7-10 | lines are tokenized independently and in order: parsing two blocks of lines one after the other gives the word lists of the first block then of the second (a corollary of the `ParseLines` contract) |
| `MetalParser.ParseExec` | s.py:2-3 | `parse_exec` always returns `"parsed"` |

## Left out

- `_read_sep_lines` (s.py:12-21): opening and reading the file, `splitlines` and its set of line terminators, the `IOError` report and `exit(1)` are I/O and process control. `ParseLines` takes the lines as a parameter.
- The `print` calls in `parse` and `_read_sep_lines`: output only. `ParseLines` returns the word lists that `parse` prints.
- The module-level `parser = MetalParser()` and `parser.parse('metal')` (s.py:30-31): entry-point code.
- The commented-out lines in `_read_sep_lines`: they never run.
- Directive dispatch, define tables, file selection, library descriptors, compile-unit deduplication and rule emission are not in `s.py`; they are not part of this model.
- Python strings may hold lone surrogate code points, which a Dafny `char` cannot. Such strings are not modelled.
