/** Worked examples of the pipeline on small inputs. */
module Scenarios {
  import opened Sequences
  import opened Ascii
  import opened Tokenize
  import opened Frequency
  import opened Ranking
  import opened Report
  import opened TagProcessing

  /** A one-line input has the tags of that line. */
  lemma OneLine(line: string, stopWords: set<string>)
    ensures Tags([line], stopWords) == LineTags(line, stopWords)
  {
    assert [line][..0] == [];
  }

  /** A line that cleans to words joined by single spaces has those words as
      its pieces. */
  lemma LineOfWords(line: string, words: seq<string>, stopWords: set<string>)
    requires words != [] && forall n :: 0 <= n < |words| ==> IsWord(words[n])
    requires CleanLine(line) == JoinWords(words)
    ensures LineTags(line, stopWords) == KeptTags(words, stopWords)
  {
    SplitJoinWords(words);
  }

  /** A line that cleans to tags joined by single spaces has those tags,
      less the stop words. */
  lemma LineOfTags(line: string, words: seq<string>, stopWords: set<string>)
    requires words != [] && forall n :: 0 <= n < |words| ==> IsTag(words[n])
    requires CleanLine(line) == JoinWords(words)
    ensures LineTags(line, stopWords) == WithoutStopWords(words, stopWords)
  {
    assert forall n :: 0 <= n < |words| ==> IsWord(words[n]);
    LineOfWords(line, words, stopWords);
    KeptTagsFilter(words, stopWords);
  }

  /** Counting three occurrences of one word. */
  lemma TallyThrice(w: string)
    ensures Tally([w, w, w]) == map[w := 3]
  {
    assert [w, w, w][..2] == [w, w] && [w, w][..1] == [w] && [w][..0] == [];
    assert Tally([w]) == map[w := 1];
    assert Tally([w, w]) == map[w := 2];
  }

  lemma CaseFoldingClean()
    ensures CleanLine("The the THE") == JoinWords(["the", "the", "the"])
  {
  }

  /** With no stop words, no piece is dropped. */
  lemma {:induction false} NoStopWords(parts: seq<string>)
    ensures WithoutStopWords(parts, {}) == parts
  {
    if parts != [] {
      NoStopWords(parts[..|parts| - 1]);
    }
  }

  lemma CaseFoldingLine()
    ensures LineTags("The the THE", {}) == ["the", "the", "the"]
  {
    var words := ["the", "the", "the"];
    CaseFoldingClean();
    assert IsTag("the");
    assert forall n :: 0 <= n < |words| ==> IsTag(words[n]);
    LineOfTags("The the THE", words, {});
    NoStopWords(words);
  }

  /** Words differing only in case are merged into one lower-case key. */
  lemma CaseFolding()
    ensures Tally(Tags(["The the THE"], {})) == map["the" := 3]
  {
    CaseFoldingLine();
    OneLine("The the THE", {});
    TallyThrice("the");
  }

  lemma TisStripped()
    ensures StripQuotes("'tis") == "tis"
  {
    StripQuotesAround("'", "tis", "");
    assert "'" + "tis" + "" == "'tis";
  }

  lemma ApostrophesKept()
    ensures KeptTags(["'tis", "'tis", "don't"], {}) == ["tis", "tis", "don't"]
  {
    KeptThree("'tis", "'tis", "don't", {});
    assert TagOf("'tis", {}) == ["tis"] by {
      TisStripped();
    }
    assert TagOf("don't", {}) == ["don't"] by {
      StripQuotesUnquoted("don't");
    }
  }

  lemma KeptThree(p: string, q: string, r: string, stopWords: set<string>)
    ensures KeptTags([p, q, r], stopWords)
         == TagOf(p, stopWords) + TagOf(q, stopWords) + TagOf(r, stopWords)
  {
    var parts := [p, q, r];
    assert parts[..2] == [p, q] && parts[..2][..1] == [p] && parts[..2][..1][..0] == [];
    assert KeptTags([p], stopWords) == TagOf(p, stopWords);
    assert KeptTags([p, q], stopWords) == TagOf(p, stopWords) + TagOf(q, stopWords);
  }

  lemma ApostrophesTally()
    ensures Tally(["tis", "tis", "don't"]) == map["tis" := 2, "don't" := 1]
  {
    var tags: seq<string> := ["tis", "tis", "don't"];
    assert tags[..2] == ["tis", "tis"] && tags[..2][..1] == ["tis"] && tags[..2][..1][..0] == [];
    assert Tally(["tis", "tis"]) == map["tis" := 2];
  }

  /** Apostrophes inside a word are kept, those around it are dropped:
      `'tis` counts as `tis`, `don't` stays `don't`. */
  lemma Apostrophes()
    ensures Tally(Tags(["'tis 'Tis don't"], {})) == map["tis" := 2, "don't" := 1]
  {
    var parts := ["'tis", "'tis", "don't"];
    assert CleanLine("'tis 'Tis don't") == JoinWords(parts);
    LineOfWords("'tis 'Tis don't", parts, {});
    ApostrophesKept();
    OneLine("'tis 'Tis don't", {});
    ApostrophesTally();
  }

  /** The line shape of `hello, world! hello-world.`, with the words as
      parameters. */
  function HelloLine(a: string, b: string): string
  {
    a + (", " + (b + ("! " + (a + ("-" + (b + "."))))))
  }

  lemma HelloClean(a: string, b: string)
    requires forall i :: 0 <= i < |a| ==> IsLower(a[i])
    requires forall i :: 0 <= i < |b| ==> IsLower(b[i])
    ensures CleanLine(HelloLine(a, b)) == a + ("  " + (b + ("  " + (a + (" " + (b + " "))))))
  {
    CleanLineOfLower(a);
    CleanLineOfLower(b);
    assert CleanLine(b + ".") == b + " " by {
      CleanLineAppend(b, ".");
      assert CleanLine(".") == " ";
    }
    assert CleanLine("-" + (b + ".")) == " " + (b + " ") by {
      CleanLineAppend("-", b + ".");
      assert CleanLine("-") == " ";
    }
    CleanLineAppend(a, "-" + (b + "."));
    assert CleanLine("! " + (a + ("-" + (b + ".")))) == "  " + (a + (" " + (b + " "))) by {
      CleanLineAppend("! ", a + ("-" + (b + ".")));
      assert CleanLine("! ") == "  ";
    }
    CleanLineAppend(b, "! " + (a + ("-" + (b + "."))));
    assert CleanLine(", " + (b + ("! " + (a + ("-" + (b + "."))))))
        == "  " + (b + ("  " + (a + (" " + (b + " "))))) by {
      CleanLineAppend(", ", b + ("! " + (a + ("-" + (b + ".")))));
      assert CleanLine(", ") == "  ";
    }
    CleanLineAppend(a, ", " + (b + ("! " + (a + ("-" + (b + "."))))));
  }

  lemma HelloFields(a: string, b: string)
    requires a != [] && forall i :: 0 <= i < |a| ==> !IsSpace(a[i])
    requires b != [] && forall i :: 0 <= i < |b| ==> !IsSpace(b[i])
    ensures Fields(a + ("  " + (b + ("  " + (a + (" " + (b + " "))))))) == [a, b, a, b] + [""]
  {
    var t1 := b + " ";
    var t2 := a + (" " + t1);
    var t3 := b + ("  " + t2);
    assert Fields(t1) == [b, ""] by {
      assert t1 == b + " " + "";
      FieldsAfterWord(b, " ", "");
      assert Fields("") == [""];
    }
    assert Fields(t2) == [a] + Fields(t1) by {
      assert t1[0] == b[0];
      FieldsAfterWordThen(a, " ", t1);
    }
    assert Fields(t3) == [b] + Fields(t2) by {
      assert t2[0] == a[0];
      FieldsAfterWordThen(b, "  ", t2);
    }
    assert Fields(a + ("  " + t3)) == [a] + Fields(t3) by {
      assert t3[0] == b[0];
      FieldsAfterWordThen(a, "  ", t3);
    }
    ConsFour(a, b, a, b, "");
  }

  lemma ConsFour<T>(x: T, y: T, z: T, w: T, last: T)
    ensures [x] + ([y] + ([z] + [w, last])) == [x, y, z, w] + [last]
  {
  }

  lemma HelloSplit(a: string, b: string)
    requires a != [] && forall i :: 0 <= i < |a| ==> IsLower(a[i])
    requires b != [] && forall i :: 0 <= i < |b| ==> IsLower(b[i])
    ensures Split(CleanLine(HelloLine(a, b))) == [a, b, a, b]
  {
    var c := a + ("  " + (b + ("  " + (a + (" " + (b + " "))))));
    assert CleanLine(HelloLine(a, b)) == c by {
      HelloClean(a, b);
    }
    assert Fields(c) == [a, b, a, b] + [""] by {
      HelloFields(a, b);
    }
    assert SpaceIndex(c) == |a| < |c| by {
      assert c[|a|] == ' ';
      SpaceIndexIs(c, |a|);
    }
    DropTrailingEmptyLast([a, b, a, b]);
  }

  /** Two different words, each counted twice. */
  lemma TallyTwice(a: string, b: string)
    requires a != b
    ensures Tally([a, b, a, b]) == map[a := 2, b := 2]
  {
    var w := [a, b, a, b];
    assert w[..3] == [a, b, a] && w[..3][..2] == [a, b];
    assert [a, b][..1] == [a] && [a][..0] == [];
    assert Tally([a]) == map[a := 1];
    assert Tally([a, b]) == map[a := 1, b := 1];
    assert Tally([a, b, a]) == map[a := 2, b := 1];
  }

  /** Punctuation and hyphens separate words like whitespace does, and
      repeated words are counted: `a, b! a-b.` counts `a` and `b` twice
      each. */
  lemma Hello(a: string, b: string, stopWords: set<string>)
    requires a != [] && forall i :: 0 <= i < |a| ==> IsLower(a[i])
    requires b != [] && forall i :: 0 <= i < |b| ==> IsLower(b[i])
    requires a != b && a !in stopWords && b !in stopWords
    ensures Tally(Tags([HelloLine(a, b)], stopWords)) == map[a := 2, b := 2]
  {
    HelloSplit(a, b);
    KeptTagsOfTags([a, b, a, b], stopWords);
    OneLine(HelloLine(a, b), stopWords);
    TallyTwice(a, b);
  }

  lemma HelloWorld()
    ensures Tally(Tags(["hello, world! hello-world."], {})) == map["hello" := 2, "world" := 2]
  {
    assert HelloLine("hello", "world") == "hello, world! hello-world.";
    Hello("hello", "world", {});
  }

  lemma StopWordFormOfThe()
    ensures StopWordForm("The") == "the"
  {
    TrimUnpadded("The");
    assert ToLowerAscii("The") == "the";
  }

  lemma StopWordFormOfAnd()
    ensures StopWordForm("  AND ") == "and"
  {
    TrimAround("  ", "AND", " ");
    assert "  " + "AND" + " " == "  AND ";
    assert ToLowerAscii("AND") == "and";
  }

  /** Case and surrounding blanks of the stop-word file do not matter. */
  lemma StopWordsExample()
    ensures StopWordSet(["The", "  AND "]) == {"the", "and"}
  {
    StopWordFormOfThe();
    StopWordFormOfAnd();
    var lines := ["The", "  AND "];
    assert lines[..1] == ["The"] && lines[..1][..0] == [];
    assert StopWordSet(["The"]) == {"the"};
  }

  lemma StopWordsJoined()
    ensures JoinWords(["the", "dog", "and", "the", "cat"]) == "the dog and the cat"
  {
    JoinFive("the", "dog", "and", "the", "cat");
    assert "the" + " " + ("dog" + " " + ("and" + " " + ("the" + " " + "cat"))) == "the dog and the cat";
  }

  lemma JoinFive(a: string, b: string, c: string, d: string, e: string)
    ensures JoinWords([a, b, c, d, e]) == a + " " + (b + " " + (c + " " + (d + " " + e)))
  {
    var w := [a, b, c, d, e];
    assert w[1..] == [b, c, d, e];
    assert JoinWords([d, e]) == d + " " + e by {
      assert [d, e][1..] == [e];
    }
    assert JoinWords([c, d, e]) == c + " " + JoinWords([d, e]) by {
      assert [c, d, e][1..] == [d, e];
    }
    assert JoinWords([b, c, d, e]) == b + " " + JoinWords([c, d, e]) by {
      assert [b, c, d, e][1..] == [c, d, e];
    }
  }

  lemma StopWordsLowered()
    ensures CleanLine("The dog and the cat") == "the dog and the cat"
  {
  }

  lemma StopWordsClean()
    ensures CleanLine("The dog and the cat") == JoinWords(["the", "dog", "and", "the", "cat"])
  {
    StopWordsLowered();
    StopWordsJoined();
  }

  lemma StopWordsLine(stopWords: set<string>)
    requires stopWords == {"the", "and"}
    ensures LineTags("The dog and the cat", stopWords) == ["dog", "cat"]
  {
    StopWordsClean();
    LineOfTags("The dog and the cat", ["the", "dog", "and", "the", "cat"], stopWords);
    StopWordsFiltered(stopWords);
  }

  lemma StopWordsFiltered(stopWords: set<string>)
    requires stopWords == {"the", "and"}
    ensures WithoutStopWords(["the", "dog", "and", "the", "cat"], stopWords) == ["dog", "cat"]
  {
    var parts := ["the", "dog", "and", "the", "cat"];
    assert parts[..4] == ["the", "dog", "and", "the"];
    assert parts[..3] == ["the", "dog", "and"];
    assert parts[..2] == ["the", "dog"];
    assert parts[..1] == ["the"] && parts[..1][..0] == [];
    assert parts[..4][..3] == parts[..3] && parts[..3][..2] == parts[..2] && parts[..2][..1] == parts[..1];
    assert "the" in stopWords && "and" in stopWords && "dog" !in stopWords && "cat" !in stopWords;
    assert WithoutStopWords(parts[..1], stopWords) == [];
    assert WithoutStopWords(parts[..2], stopWords) == ["dog"];
    assert WithoutStopWords(parts[..3], stopWords) == ["dog"];
    assert WithoutStopWords(parts[..4], stopWords) == ["dog"];
  }

  /** Two different words, counted once each. */
  lemma TallyTwo(a: string, b: string)
    requires a != b
    ensures Tally([a, b]) == map[a := 1, b := 1]
  {
    assert [a, b][..1] == [a] && [a][..0] == [];
    assert Tally([a]) == map[a := 1];
  }

  lemma RankTwo()
    ensures SortByFrequency(map["dog" := 1, "cat" := 1]) == [Entry("cat", 1), Entry("dog", 1)]
  {
    var r := [Entry("cat", 1), Entry("dog", 1)];
    assert Precedes(r[0], r[1]);
    assert AsMap(r) == map["dog" := 1, "cat" := 1];
    SortedIsUnique(map["dog" := 1, "cat" := 1], r);
  }

  /** Stop words are dropped whatever their case in the stop-word file, and
      tags with equal counts are ranked alphabetically. */
  lemma StopWordsAndRanking()
    ensures SortByFrequency(Tally(Tags(["The dog and the cat"], StopWordSet(["The", "  AND "]))))
         == [Entry("cat", 1), Entry("dog", 1)]
  {
    var stopWords := StopWordSet(["The", "  AND "]);
    StopWordsExample();
    StopWordsLine(stopWords);
    OneLine("The dog and the cat", stopWords);
    TallyTwo("dog", "cat");
    RankTwo();
  }

  lemma JoinSix(a: string, b: string, c: string, d: string, e: string, f: string)
    ensures JoinWords([a, b, c, d, e, f]) == a + " " + (b + " " + (c + " " + (d + " " + (e + " " + f))))
  {
    assert [a, b, c, d, e, f][1..] == [b, c, d, e, f];
    JoinFive(b, c, d, e, f);
  }

  lemma MatJoined()
    ensures JoinWords(["the", "cat", "sat", "on", "the", "mat"]) == "the cat sat on the mat"
  {
    JoinSix("the", "cat", "sat", "on", "the", "mat");
    assert "the" + " " + ("cat" + " " + ("sat" + " " + ("on" + " " + ("the" + " " + "mat")))) == "the cat sat on the mat";
  }

  lemma MatClean()
    ensures CleanLine("the cat sat on the mat") == JoinWords(["the", "cat", "sat", "on", "the", "mat"])
  {
    MatJoined();
    CleanLineOfLower("the cat sat on the mat");
  }

  lemma MatFiltered(stopWords: set<string>)
    requires stopWords == {"the", "on"}
    ensures WithoutStopWords(["the", "cat", "sat", "on", "the", "mat"], stopWords) == ["cat", "sat", "mat"]
  {
    var parts := ["the", "cat", "sat", "on", "the", "mat"];
    assert parts[..5] == ["the", "cat", "sat", "on", "the"];
    assert parts[..4] == ["the", "cat", "sat", "on"];
    assert parts[..3] == ["the", "cat", "sat"];
    assert parts[..2] == ["the", "cat"];
    assert parts[..1] == ["the"] && parts[..1][..0] == [];
    assert parts[..5][..4] == parts[..4] && parts[..4][..3] == parts[..3];
    assert parts[..3][..2] == parts[..2] && parts[..2][..1] == parts[..1];
    assert "the" in stopWords && "on" in stopWords;
    assert "cat" !in stopWords && "sat" !in stopWords && "mat" !in stopWords;
    assert WithoutStopWords(parts[..1], stopWords) == [];
    assert WithoutStopWords(parts[..2], stopWords) == ["cat"];
    assert WithoutStopWords(parts[..3], stopWords) == ["cat", "sat"];
    assert WithoutStopWords(parts[..4], stopWords) == ["cat", "sat"];
    assert WithoutStopWords(parts[..5], stopWords) == ["cat", "sat"];
  }

  lemma MatLine(stopWords: set<string>)
    requires stopWords == {"the", "on"}
    ensures LineTags("the cat sat on the mat", stopWords) == ["cat", "sat", "mat"]
  {
    var words := ["the", "cat", "sat", "on", "the", "mat"];
    assert forall n :: 0 <= n < |words| ==> IsTag(words[n]) by {
      assert IsTag("the") && IsTag("cat") && IsTag("sat") && IsTag("on") && IsTag("mat");
    }
    assert CleanLine("the cat sat on the mat") == JoinWords(words) by {
      MatClean();
    }
    LineOfTags("the cat sat on the mat", words, stopWords);
    MatFiltered(stopWords);
  }

  /** Three different words, counted once each. */
  lemma TallyThree(a: string, b: string, c: string)
    requires a != b && b != c && a != c
    ensures Tally([a, b, c]) == map[a := 1, b := 1, c := 1]
  {
    assert [a, b, c][..2] == [a, b];
    TallyTwo(a, b);
  }

  /** Three entries with distinct keys, each sorting before the next, are
      the ranking of their table. */
  lemma RankOfThree(x: Entry, y: Entry, z: Entry)
    requires Precedes(x, y) && Precedes(y, z)
    requires x.key != y.key && y.key != z.key && x.key != z.key
    ensures SortByFrequency(map[z.key := z.count, y.key := y.count, x.key := x.count]) == [x, y, z]
  {
    var r := [x, y, z];
    AsMapThree(x, y, z);
    assert Ordered(r) && DistinctKeys(r);
    SortedIsUnique(map[z.key := z.count, y.key := y.count, x.key := x.count], r);
  }

  lemma AsMapThree(x: Entry, y: Entry, z: Entry)
    ensures AsMap([x, y, z]) == map[z.key := z.count, y.key := y.count, x.key := x.count]
  {
    assert AsMap([z]) == map[z.key := z.count] by {
      assert [z][1..] == [];
    }
    assert AsMap([y, z]) == map[z.key := z.count, y.key := y.count] by {
      assert [y, z][1..] == [z];
    }
    assert [x, y, z][1..] == [y, z];
  }

  lemma RankThree()
    ensures SortByFrequency(map["cat" := 1, "sat" := 1, "mat" := 1])
         == [Entry("cat", 1), Entry("mat", 1), Entry("sat", 1)]
  {
    var x, y, z := Entry("cat", 1), Entry("mat", 1), Entry("sat", 1);
    assert Precedes(x, y) && Precedes(y, z);
    assert map["cat" := 1, "sat" := 1, "mat" := 1] == map["sat" := 1, "mat" := 1, "cat" := 1];
    RankOfThree(x, y, z);
  }

  /** Stop words are dropped and tags with equal counts are ranked
      alphabetically: `the cat sat on the mat` with the stop words `the` and
      `on` ranks `cat`, `mat`, `sat`. */
  lemma CatSatOnTheMat()
    ensures SortByFrequency(Tally(Tags(["the cat sat on the mat"], {"the", "on"})))
         == [Entry("cat", 1), Entry("mat", 1), Entry("sat", 1)]
  {
    var stopWords: set<string> := {"the", "on"};
    MatLine(stopWords);
    OneLine("the cat sat on the mat", stopWords);
    TallyThree("cat", "sat", "mat");
    RankThree();
  }

  /** A higher count ranks first even when its key sorts later. */
  lemma CountBeforeKey()
    ensures SortByFrequency(map["b" := 2, "a" := 1]) == [Entry("b", 2), Entry("a", 1)]
  {
    var r := [Entry("b", 2), Entry("a", 1)];
    assert Precedes(r[0], r[1]);
    assert AsMap(r) == map["b" := 2, "a" := 1];
    SortedIsUnique(map["b" := 2, "a" := 1], r);
  }

  /** The count is right-aligned in six columns, then one space and the tag. */
  lemma RowLayout()
    ensures Row(Entry("cat", 12)) == "    12 cat"
  {
    assert Decimal(12) == "12";
  }
}
