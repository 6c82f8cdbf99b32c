/**
 * The line tokenizer of the metal description parser. Every line of a
 * description is split on the single space character and the empty pieces
 * are dropped; what remains are the words of the directive on that line.
 */
module MetalParser {
  import opened PyStr

  /** The word separator: the space character, and nothing else. */
  const Space := ' '

  /**
   * The words of one line: the line split on every space, empty pieces
   * dropped. Words are never empty, never hold a space, and together hold
   * every other character of the line, in the order of the line.
   */
  function SepWords(line: string): (words: seq<string>)
    ensures forall i :: 0 <= i < |words| ==> words[i] != ""
    ensures forall i :: 0 <= i < |words| ==> Space !in words[i]
    ensures Concat(words) == Remove(line, Space)
  {
    ConcatSplit(line, Space);
    ConcatDropEmpty(Split(line, Space));
    var words := DropEmpty(Split(line, Space));
    assert forall i :: 0 <= i < |words| ==> words[i] in Split(line, Space);
    words
  }

  /**
   * The per-line step of parsing a whole description: the word lists of the
   * lines, one per line and in the order of the lines.
   */
  function ParseLines(lines: seq<string>): (wordLists: seq<seq<string>>)
    ensures |wordLists| == |lines|
    ensures forall i :: 0 <= i < |lines| ==> wordLists[i] == SepWords(lines[i])
  {
    if lines == [] then [] else [SepWords(lines[0])] + ParseLines(lines[1..])
  }

  /** `parse_exec`: a stub that always returns "parsed". */
  function ParseExec(): (r: string)
    ensures r == "parsed"
  {
    "parsed"
  }

  /** A line gives no words exactly when it holds nothing but spaces (the empty line included). */
  lemma SepWordsEmptyIff(line: string)
    ensures SepWords(line) == [] <==> forall i :: 0 <= i < |line| ==> line[i] == Space
  {
    var words := SepWords(line);
    if words == [] {
      forall i | 0 <= i < |line| ensures line[i] == Space {
        assert line[i] in line;
      }
    }
    if forall i :: 0 <= i < |line| ==> line[i] == Space {
      RemoveOnly(line, Space);
      ConcatEmpty(words);
    }
  }

  /** A non-empty line without a space is one word: tabs and every other character stay inside words. */
  lemma SepWordsNoSpace(line: string)
    requires Space !in line
    ensures SepWords(line) == if line == "" then [] else [line]
  {
    SplitNoSep(line, Space);
    assert Split(line, Space) == [line];
    if line != "" {
      assert DropEmpty([line]) == [line] + DropEmpty([]);
    }
  }

  /** A space between `a` and `b` separates them: the words of `a` come first, then those of `b`. */
  lemma SepWordsAppend(a: string, b: string)
    ensures SepWords(a + [Space] + b) == SepWords(a) + SepWords(b)
  {
    SplitAppend(a, b, Space);
    DropEmptyAppend(Split(a, Space), Split(b, Space));
  }

  /** Tokenizing words joined by single spaces gives the same words back. */
  lemma SepWordsJoin(words: seq<string>)
    requires forall i :: 0 <= i < |words| ==> words[i] != ""
    requires forall i :: 0 <= i < |words| ==> Space !in words[i]
    ensures SepWords(Join(words, [Space])) == words
  {
    if words == [] {
      assert Split("", Space) == [""];
      assert DropEmpty([""]) == DropEmpty([]);
    } else {
      SplitJoin(words, Space);
      DropEmptyKeeps(words);
    }
  }

  /** Normalising a line to its words joined by single spaces is idempotent: it keeps the words. */
  lemma SepWordsIdempotent(line: string)
    ensures SepWords(Join(SepWords(line), [Space])) == SepWords(line)
  {
    SepWordsJoin(SepWords(line));
  }

  /** The word collected so far, if there is one. */
  function Flush(word: string): seq<string>
  {
    if word == "" then [] else [word]
  }

  /**
   * A reference tokenizer that reads the line left to right, growing the
   * current `word` with each character other than a space and closing it at
   * each space and at the end of the line.
   */
  function Scan(line: string, word: string): seq<string>
  {
    if line == [] then Flush(word)
    else if line[0] == Space then Flush(word) + Scan(line[1..], "")
    else Scan(line[1..], word + [line[0]])
  }

  /** Splitting and filtering agrees with the left-to-right scan, from any partial word. */
  lemma {:induction false} SepWordsScanFrom(line: string, word: string)
    requires Space !in word
    ensures SepWords(word + line) == Scan(line, word)
  {
    if line == [] {
      assert word + line == word;
      SepWordsNoSpace(word);
    } else if line[0] == Space {
      assert word + line == word + [Space] + line[1..];
      SepWordsAppend(word, line[1..]);
      SepWordsNoSpace(word);
      SepWordsScanFrom(line[1..], "");
      assert "" + line[1..] == line[1..];
    } else {
      assert word + line == (word + [line[0]]) + line[1..];
      SepWordsScanFrom(line[1..], word + [line[0]]);
    }
  }

  /** The words of a line are the maximal runs of characters other than a space, left to right. */
  lemma SepWordsScan(line: string)
    ensures SepWords(line) == Scan(line, "")
  {
    SepWordsScanFrom(line, "");
    assert "" + line == line;
  }

  /** Lines are tokenized independently: parsing two blocks of lines parses each in turn. */
  lemma ParseLinesAppend(a: seq<string>, b: seq<string>)
    ensures ParseLines(a + b) == ParseLines(a) + ParseLines(b)
  {
  }
}
