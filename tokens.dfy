/** Per-line tokenisation of `extractTags`: characters outside `[a-zA-Z']`
    become spaces, the line is lower-cased and split on whitespace runs, and
    each piece loses its leading and trailing apostrophes. What survives, and
    is not a stop word, is a tag. */
module Tokenize {
  import opened Ascii
  import opened Sequences

  /** The characters the class `[a-zA-Z']` matches. */
  predicate IsWordChar(c: char) { IsLetter(c) || c == '\'' }

  /** `line.replaceAll("[^a-zA-Z']", " ")`: every other character becomes one
      space, word characters stay where they are. */
  function ReplaceNonWordChars(line: string): (r: string)
    ensures |r| == |line|
    ensures forall i :: 0 <= i < |r| ==> IsWordChar(r[i]) || r[i] == ' '
    ensures forall i :: 0 <= i < |r| && IsWordChar(line[i]) ==> r[i] == line[i]
    ensures forall i :: 0 <= i < |r| && IsWordChar(r[i]) ==> r[i] == line[i]
  {
    seq(|line|, i requires 0 <= i < |line| => if IsWordChar(line[i]) then line[i] else ' ')
  }

  /** The line after the replacement and `toLowerCase`: only lower-case
      letters, apostrophes and spaces remain. Position by position, an
      upper-case letter becomes its lower-case partner, lower-case letters
      and apostrophes stay, and every other character becomes a space. */
  function CleanLine(line: string): (r: string)
    ensures |r| == |line|
    ensures forall i :: 0 <= i < |r| ==> IsLower(r[i]) || r[i] == '\'' || r[i] == ' '
    ensures forall i :: 0 <= i < |r| ==> IsLetter(r[i]) == IsLetter(line[i])
    ensures forall i :: 0 <= i < |r| && IsUpper(line[i]) ==> r[i] as int - 'a' as int == line[i] as int - 'A' as int
    ensures forall i :: 0 <= i < |r| && (IsLower(line[i]) || line[i] == '\'') ==> r[i] == line[i]
    ensures forall i :: 0 <= i < |r| && !IsWordChar(line[i]) ==> r[i] == ' '
  {
    ToLowerAscii(ReplaceNonWordChars(line))
  }

  /** Cleaning works character by character. */
  lemma CleanLineAt(line: string, i: nat)
    requires i < |line|
    ensures CleanLine(line)[i] == ToLower(if IsWordChar(line[i]) then line[i] else ' ')
  {
  }

  /** Cleaning a concatenation cleans each part. */
  lemma CleanLineAppend(x: string, y: string)
    ensures CleanLine(x + y) == CleanLine(x) + CleanLine(y)
  {
    var l, r := CleanLine(x + y), CleanLine(x) + CleanLine(y);
    forall i | 0 <= i < |l|
      ensures l[i] == r[i]
    {
      CleanLineAt(x + y, i);
      if i < |x| {
        CleanLineAt(x, i);
      } else {
        CleanLineAt(y, i - |x|);
      }
    }
  }

  /** Lines that differ only in the case of their letters clean to the same
      line. */
  lemma CleanLineIgnoresCase(x: string, y: string)
    requires EqualIgnoringCase(x, y)
    ensures CleanLine(x) == CleanLine(y)
  {
    forall i | 0 <= i < |x|
      ensures CleanLine(x)[i] == CleanLine(y)[i]
    {
      CleanLineAt(x, i);
      CleanLineAt(y, i);
      assert IsWordChar(x[i]) <==> IsWordChar(y[i]) by {
        assert IsLetter(ToLower(x[i])) == IsLetter(x[i]);
        assert IsLetter(ToLower(y[i])) == IsLetter(y[i]);
      }
    }
  }

  /** Lower-case letters, apostrophes and spaces survive cleaning
      unchanged. */
  lemma CleanLineOfLower(w: string)
    requires forall i :: 0 <= i < |w| ==> IsLower(w[i]) || w[i] == '\'' || w[i] == ' '
    ensures CleanLine(w) == w
  {
    forall i | 0 <= i < |w|
      ensures CleanLine(w)[i] == w[i]
    {
      CleanLineAt(w, i);
    }
  }

  /** The characters the regular-expression class `\s` matches. */
  predicate IsSpace(c: char)
  {
    c == ' ' || c == '\t' || c == '\n' || c == '\U{B}' || c == '\U{C}' || c == '\r'
  }

  /** Index of the first whitespace character of `s`, or `|s|` if none. */
  function SpaceIndex(s: string): (i: nat)
    ensures i <= |s|
    ensures forall k :: 0 <= k < i ==> !IsSpace(s[k])
    ensures i < |s| ==> IsSpace(s[i])
  {
    if s == [] || IsSpace(s[0]) then 0 else 1 + SpaceIndex(s[1..])
  }

  /** Length of the whitespace run at the start of `s`. */
  function SpaceRun(s: string): (n: nat)
    ensures n <= |s|
    ensures forall k :: 0 <= k < n ==> IsSpace(s[k])
    ensures n < |s| ==> !IsSpace(s[n])
  {
    if s != [] && IsSpace(s[0]) then 1 + SpaceRun(s[1..]) else 0
  }

  /** The pieces between the whitespace runs of `s`, in order, with an empty
      first piece when `s` starts with whitespace and an empty last piece
      when it ends with whitespace. */
  function Fields(s: string): (r: seq<string>)
    ensures |r| >= 1
    decreases |s|
  {
    var i := SpaceIndex(s);
    if i == |s| then [s]
    else
      var j := i + SpaceRun(s[i..]);
      [s[..i]] + Fields(s[j..])
  }

  /** The longest prefix of `parts` that does not end with an empty string. */
  function DropTrailingEmpty(parts: seq<string>): (r: seq<string>)
    ensures |r| <= |parts| && r == parts[..|r|]
    ensures r == [] || r[|r| - 1] != []
    ensures forall k :: |r| <= k < |parts| ==> parts[k] == []
  {
    if parts != [] && parts[|parts| - 1] == [] then DropTrailingEmpty(parts[..|parts| - 1]) else parts
  }

  /** `s.split("\\s+")`: the whole string when it holds no whitespace (so
      `""` gives `[""]`), and otherwise the pieces between whitespace runs
      with the trailing empty pieces removed (a leading empty piece stays). */
  function Split(s: string): seq<string>
  {
    if SpaceIndex(s) == |s| then [s] else DropTrailingEmpty(Fields(s))
  }

  /** No piece holds whitespace, and a piece holds only characters of a
      class `P` when every non-whitespace character of `s` is in `P`. */
  lemma {:induction false} FieldsPieces(s: string, P: char -> bool)
    requires forall i :: 0 <= i < |s| ==> IsSpace(s[i]) || P(s[i])
    ensures forall k, j :: 0 <= k < |Fields(s)| && 0 <= j < |Fields(s)[k]| ==>
      !IsSpace(Fields(s)[k][j]) && P(Fields(s)[k][j])
    decreases |s|
  {
    var i := SpaceIndex(s);
    if i < |s| {
      var j := i + SpaceRun(s[i..]);
      FieldsPieces(s[j..], P);
      assert Fields(s) == [s[..i]] + Fields(s[j..]);
    }
  }

  /** The same for the pieces `Split` returns. */
  lemma SplitPieces(s: string, P: char -> bool)
    requires forall i :: 0 <= i < |s| ==> IsSpace(s[i]) || P(s[i])
    ensures forall k, j :: 0 <= k < |Split(s)| && 0 <= j < |Split(s)[k]| ==>
      !IsSpace(Split(s)[k][j]) && P(Split(s)[k][j])
  {
    FieldsPieces(s, P);
  }

  /** The non-whitespace characters of `s`, in order. */
  function RemoveSpaces(s: string): string
  {
    if s == [] then [] else (if IsSpace(s[0]) then [] else [s[0]]) + RemoveSpaces(s[1..])
  }

  /** All pieces joined back together. */
  function Concat(parts: seq<string>): string
  {
    if parts == [] then [] else parts[0] + Concat(parts[1..])
  }

  lemma {:induction false} RemoveSpacesAppend(a: string, b: string)
    ensures RemoveSpaces(a + b) == RemoveSpaces(a) + RemoveSpaces(b)
  {
    if a == [] {
      assert a + b == b;
    } else {
      assert (a + b)[1..] == a[1..] + b;
      RemoveSpacesAppend(a[1..], b);
    }
  }

  lemma {:induction false} RemoveSpacesOfWord(a: string)
    requires forall k :: 0 <= k < |a| ==> !IsSpace(a[k])
    ensures RemoveSpaces(a) == a
  {
    if a != [] {
      RemoveSpacesOfWord(a[1..]);
    }
  }

  lemma {:induction false} RemoveSpacesOfBlank(a: string)
    requires forall k :: 0 <= k < |a| ==> IsSpace(a[k])
    ensures RemoveSpaces(a) == []
  {
    if a != [] {
      RemoveSpacesOfBlank(a[1..]);
    }
  }

  lemma {:induction false} ConcatDropsEmpty(parts: seq<string>, n: nat)
    requires n <= |parts|
    requires forall k :: n <= k < |parts| ==> parts[k] == []
    ensures Concat(parts) == Concat(parts[..n])
  {
    if n > 0 {
      assert parts[1..][..n - 1] == parts[..n][1..];
      ConcatDropsEmpty(parts[1..], n - 1);
    } else if parts != [] {
      ConcatDropsEmpty(parts[1..], 0);
    }
  }

  /** Removing whitespace from a word, a whitespace run and a rest leaves the
      word followed by the rest without its whitespace. */
  lemma {:induction false} RemoveSpacesAfterWord(s: string, i: nat, j: nat)
    requires i <= j <= |s|
    requires forall k :: 0 <= k < i ==> !IsSpace(s[k])
    requires forall k :: i <= k < j ==> IsSpace(s[k])
    ensures RemoveSpaces(s) == s[..i] + RemoveSpaces(s[j..])
  {
    var word, run, rest := s[..i], s[i..j], s[j..];
    assert s == word + run + rest;
    assert RemoveSpaces(word + run) == word by {
      RemoveSpacesOfWord(word);
      RemoveSpacesOfBlank(run);
      RemoveSpacesAppend(word, run);
    }
    RemoveSpacesAppend(word + run, rest);
  }

  /** Splitting keeps every non-whitespace character, in order: the pieces
      joined together are `s` with its whitespace removed. */
  lemma {:induction false} FieldsKeepNonSpace(s: string)
    ensures Concat(Fields(s)) == RemoveSpaces(s)
    decreases |s|
  {
    var i := SpaceIndex(s);
    if i == |s| {
      RemoveSpacesOfWord(s);
    } else {
      var j := i + SpaceRun(s[i..]);
      var f := Fields(s);
      assert f[0] == s[..i] && f[1..] == Fields(s[j..]);
      FieldsKeepNonSpace(s[j..]);
      RemoveSpacesAfterWord(s, i, j);
    }
  }

  lemma SplitKeepsNonSpace(s: string)
    ensures Concat(Split(s)) == RemoveSpaces(s)
  {
    if SpaceIndex(s) == |s| {
      RemoveSpacesOfWord(s);
    } else {
      var f := Fields(s);
      FieldsKeepNonSpace(s);
      ConcatDropsEmpty(f, |DropTrailingEmpty(f)|);
    }
  }

  lemma {:induction false} SpaceIndexIs(s: string, i: nat)
    requires i <= |s|
    requires forall k :: 0 <= k < i ==> !IsSpace(s[k])
    requires i < |s| ==> IsSpace(s[i])
    ensures SpaceIndex(s) == i
  {
    if i > 0 {
      SpaceIndexIs(s[1..], i - 1);
    }
  }

  lemma {:induction false} SpaceRunIs(s: string, n: nat)
    requires n <= |s|
    requires forall k :: 0 <= k < n ==> IsSpace(s[k])
    requires n < |s| ==> !IsSpace(s[n])
    ensures SpaceRun(s) == n
  {
    if n > 0 {
      SpaceRunIs(s[1..], n - 1);
    }
  }

  /** A word followed by a whitespace run splits off as the first piece. */
  lemma FieldsStep(s: string, i: nat, j: nat)
    requires i < j <= |s|
    requires forall k :: 0 <= k < i ==> !IsSpace(s[k])
    requires forall k :: i <= k < j ==> IsSpace(s[k])
    requires j < |s| ==> !IsSpace(s[j])
    ensures Fields(s) == [s[..i]] + Fields(s[j..])
  {
    var t := s[i..];
    assert SpaceIndex(s) == i by {
      SpaceIndexIs(s, i);
    }
    assert SpaceRun(t) == j - i by {
      assert forall k :: 0 <= k < j - i ==> t[k] == s[i + k];
      SpaceRunIs(t, j - i);
    }
  }

  /** Non-empty words, none holding whitespace, joined by single spaces. */
  function JoinWords(words: seq<string>): string
    requires words != []
  {
    if |words| == 1 then words[0] else words[0] + " " + JoinWords(words[1..])
  }

  predicate IsWord(w: string)
  {
    w != [] && forall k :: 0 <= k < |w| ==> !IsSpace(w[k])
  }

  lemma {:induction false} JoinWordsStartsWithWord(words: seq<string>)
    requires words != [] && forall n :: 0 <= n < |words| ==> IsWord(words[n])
    ensures JoinWords(words)[..|words[0]|] == words[0]
    ensures |words| > 1 ==> JoinWords(words)[|words[0]|] == ' '
    ensures |words| == 1 ==> JoinWords(words) == words[0]
  {
  }

  lemma {:induction false} FieldsOfJoinWords(words: seq<string>)
    requires words != [] && forall n :: 0 <= n < |words| ==> IsWord(words[n])
    ensures Fields(JoinWords(words)) == words
    decreases |words|
  {
    if |words| == 1 {
      var s := JoinWords(words);
      SpaceIndexIs(s, |s|);
    } else {
      var w, rest := words[0], words[1..];
      var t := JoinWords(rest);
      assert JoinWords(words) == w + " " + t;
      assert t != [] && !IsSpace(t[0]) by {
        assert IsWord(rest[0]);
        JoinWordsStartsWithWord(rest);
      }
      assert Fields(w + " " + t) == [w] + Fields(t) by {
        assert IsWord(w);
        FieldsAfterWord(w, " ", t);
      }
      assert Fields(t) == rest by {
        FieldsOfJoinWords(rest);
      }
      assert words == [w] + rest;
    }
  }

  /** A text without whitespace, a whitespace run and a text that does not
      start with whitespace: the first text is the first piece, the pieces
      of the last text follow. */
  lemma FieldsAfterWord(w: string, run: string, t: string)
    requires forall k :: 0 <= k < |w| ==> !IsSpace(w[k])
    requires run != [] && forall k :: 0 <= k < |run| ==> IsSpace(run[k])
    requires t != [] ==> !IsSpace(t[0])
    ensures Fields(w + run + t) == [w] + Fields(t)
  {
    var s := w + run + t;
    var i, j := |w|, |w| + |run|;
    assert s[..i] == w && s[j..] == t;
    assert forall k :: i <= k < j ==> s[k] == run[k - i];
    FieldsStep(s, i, j);
  }

  /** `FieldsAfterWord` with the run and the rest grouped together. */
  lemma FieldsAfterWordThen(w: string, run: string, t: string)
    requires forall k :: 0 <= k < |w| ==> !IsSpace(w[k])
    requires run != [] && forall k :: 0 <= k < |run| ==> IsSpace(run[k])
    requires t != [] ==> !IsSpace(t[0])
    ensures Fields(w + (run + t)) == [w] + Fields(t)
  {
    SeqAssoc(w, run, t);
    FieldsAfterWord(w, run, t);
  }

  /** Splitting undoes joining: non-empty words without whitespace, joined by
      single spaces, split back into exactly those words. */
  lemma SplitJoinWords(words: seq<string>)
    requires words != [] && forall n :: 0 <= n < |words| ==> IsWord(words[n])
    ensures Split(JoinWords(words)) == words
  {
    var s := JoinWords(words);
    JoinWordsStartsWithWord(words);
    if |words| == 1 {
      SpaceIndexIs(s, |s|);
    } else {
      assert SpaceIndex(s) == |words[0]| < |s| by { SpaceIndexIs(s, |words[0]|); }
      assert Fields(s) == words by { FieldsOfJoinWords(words); }
      assert words[|words| - 1] != [];
      DropTrailingEmptyKeeps(words);
    }
  }

  /** One trailing empty piece after a non-empty one is dropped. */
  lemma DropTrailingEmptyLast(parts: seq<string>)
    requires parts != [] && parts[|parts| - 1] != []
    ensures DropTrailingEmpty(parts + [""]) == parts
  {
    assert (parts + [""])[..|parts|] == parts;
  }

  lemma DropTrailingEmptyKeeps(parts: seq<string>)
    requires parts != [] && parts[|parts| - 1] != []
    ensures DropTrailingEmpty(parts) == parts
  {
  }

  /** Number of apostrophes at the start of `w`. */
  function LeadingQuotes(w: string): (n: nat)
    ensures n <= |w|
    ensures forall i :: 0 <= i < n ==> w[i] == '\''
    ensures n < |w| ==> w[n] != '\''
  {
    if |w| > 0 && w[0] == '\'' then 1 + LeadingQuotes(w[1..]) else 0
  }

  /** Number of apostrophes at the end of `w`. */
  function TrailingQuotes(w: string): (n: nat)
    ensures n <= |w|
    ensures forall i :: |w| - n <= i < |w| ==> w[i] == '\''
    ensures n < |w| ==> w[|w| - 1 - n] != '\''
  {
    if |w| > 0 && w[|w| - 1] == '\'' then 1 + TrailingQuotes(w[..|w| - 1]) else 0
  }

  /** `w.replaceAll("^'+|'+$", "")`: the slice of `w` left after cutting the
      apostrophes at both ends. Only apostrophes are cut, internal ones stay,
      and a non-empty result neither starts nor ends with one. */
  function StripQuotes(w: string): (r: string)
    ensures LeadingQuotes(w) + |r| <= |w|
    ensures r == w[LeadingQuotes(w)..LeadingQuotes(w) + |r|]
    ensures forall i :: 0 <= i < LeadingQuotes(w) ==> w[i] == '\''
    ensures forall i :: LeadingQuotes(w) + |r| <= i < |w| ==> w[i] == '\''
    ensures r != [] ==> r[0] != '\'' && r[|r| - 1] != '\''
  {
    var a := LeadingQuotes(w);
    var t := w[a..];
    t[..|t| - TrailingQuotes(t)]
  }

  /** A word that neither starts nor ends with an apostrophe is left as it
      is. */
  lemma StripQuotesUnquoted(w: string)
    requires w != [] ==> w[0] != '\'' && w[|w| - 1] != '\''
    ensures StripQuotes(w) == w
  {
    if w != [] {
      var r := StripQuotes(w);
      assert LeadingQuotes(w) == 0;
      assert |r| == |w|;
    }
  }

  lemma {:induction false} LeadingQuotesIs(w: string, n: nat)
    requires n <= |w|
    requires forall i :: 0 <= i < n ==> w[i] == '\''
    requires n < |w| ==> w[n] != '\''
    ensures LeadingQuotes(w) == n
  {
    if n > 0 {
      LeadingQuotesIs(w[1..], n - 1);
    }
  }

  /** Stripping a word that neither starts nor ends with an apostrophe, with
      apostrophes around it, gives back that word. */
  lemma StripQuotesAround(before: string, w: string, after: string)
    requires forall i :: 0 <= i < |before| ==> before[i] == '\''
    requires forall i :: 0 <= i < |after| ==> after[i] == '\''
    requires w != [] && w[0] != '\'' && w[|w| - 1] != '\''
    ensures StripQuotes(before + w + after) == w
  {
    var s := before + w + after;
    var a, b := |before|, |before| + |w|;
    assert s[a] == w[0] && s[b - 1] == w[|w| - 1];
    assert forall i :: b <= i < |s| ==> s[i] == after[i - b];
    LeadingQuotesIs(s, a);
    assert |StripQuotes(s)| == |w|;
    assert s[a..b] == w;
  }

  /** Stripping twice strips nothing more. */
  lemma StripQuotesIdempotent(w: string)
    ensures StripQuotes(StripQuotes(w)) == StripQuotes(w)
  {
    StripQuotesUnquoted(StripQuotes(w));
  }

  /** The shape of every key `extractTags` can produce. */
  predicate IsTag(w: string)
  {
    && w != []
    && w[0] != '\''
    && w[|w| - 1] != '\''
    && forall i :: 0 <= i < |w| ==> IsLower(w[i]) || w[i] == '\''
  }

  /** What one piece of a split line contributes: its stripped form, unless
      that is empty or a stop word. */
  function TagOf(part: string, stopWords: set<string>): seq<string>
  {
    if Dropped(part, stopWords) then [] else [StripQuotes(part)]
  }

  /** A piece is dropped when it strips to nothing or to a stop word. */
  predicate Dropped(part: string, stopWords: set<string>)
  {
    StripQuotes(part) == [] || StripQuotes(part) in stopWords
  }

  /** The tags of a sequence of pieces, in order. */
  function KeptTags(parts: seq<string>, stopWords: set<string>): seq<string>
  {
    if parts == [] then []
    else KeptTags(parts[..|parts| - 1], stopWords) + TagOf(parts[|parts| - 1], stopWords)
  }

  /** `parts` without the stop words, in order. */
  function WithoutStopWords(parts: seq<string>, stopWords: set<string>): seq<string>
  {
    if parts == [] then []
    else
      var last := parts[|parts| - 1];
      WithoutStopWords(parts[..|parts| - 1], stopWords) + (if last in stopWords then [] else [last])
  }

  /** For pieces that are already tags, extraction only drops the stop
      words. */
  lemma {:induction false} KeptTagsFilter(parts: seq<string>, stopWords: set<string>)
    requires forall n :: 0 <= n < |parts| ==> IsTag(parts[n])
    ensures KeptTags(parts, stopWords) == WithoutStopWords(parts, stopWords)
  {
    if parts != [] {
      KeptTagsFilter(parts[..|parts| - 1], stopWords);
      StripQuotesUnquoted(parts[|parts| - 1]);
    }
  }

  /** Pieces that are already tags, none of them a stop word, are kept
      unchanged and in order. */
  lemma {:induction false} KeptTagsOfTags(parts: seq<string>, stopWords: set<string>)
    requires forall n :: 0 <= n < |parts| ==> IsTag(parts[n]) && parts[n] !in stopWords
    ensures KeptTags(parts, stopWords) == parts
  {
    if parts != [] {
      var last := parts[|parts| - 1];
      KeptTagsOfTags(parts[..|parts| - 1], stopWords);
      StripQuotesUnquoted(last);
      assert parts == parts[..|parts| - 1] + [last];
    }
  }

  /** Pieces are kept or dropped one by one: the tags of two runs of pieces
      are the tags of the first followed by those of the second. */
  lemma {:induction false} KeptTagsAppend(p: seq<string>, q: seq<string>, stopWords: set<string>)
    ensures KeptTags(p + q, stopWords) == KeptTags(p, stopWords) + KeptTags(q, stopWords)
    decreases |q|
  {
    if q == [] {
      assert p + q == p;
    } else {
      var q', last := q[..|q| - 1], q[|q| - 1];
      assert (p + q)[..|p + q| - 1] == p + q';
      KeptTagsAppend(p, q', stopWords);
    }
  }

  /** The tags of one input line, in order. */
  function LineTags(line: string, stopWords: set<string>): seq<string>
  {
    KeptTags(Split(CleanLine(line)), stopWords)
  }

  /** The tags of all input lines, line after line. */
  function Tags(lines: seq<string>, stopWords: set<string>): seq<string>
  {
    if lines == [] then []
    else Tags(lines[..|lines| - 1], stopWords) + LineTags(lines[|lines| - 1], stopWords)
  }

  lemma TagOfWellFormed(part: string, stopWords: set<string>)
    requires forall i :: 0 <= i < |part| ==> IsLower(part[i]) || part[i] == '\''
    ensures forall t :: t in TagOf(part, stopWords) ==> IsTag(t) && t !in stopWords
  {
    var w := StripQuotes(part);
    var a := LeadingQuotes(part);
    assert forall i :: 0 <= i < |w| ==> w[i] == part[a + i];
  }

  lemma {:induction false} KeptTagsWellFormed(parts: seq<string>, stopWords: set<string>)
    requires forall k, i :: 0 <= k < |parts| && 0 <= i < |parts[k]| ==> IsLower(parts[k][i]) || parts[k][i] == '\''
    ensures forall t :: t in KeptTags(parts, stopWords) ==> IsTag(t) && t !in stopWords
  {
    if parts != [] {
      KeptTagsWellFormed(parts[..|parts| - 1], stopWords);
      TagOfWellFormed(parts[|parts| - 1], stopWords);
    }
  }

  /** Every tag of a line is non-empty, made of `a`-`z` and apostrophes,
      neither starts nor ends with an apostrophe, and is not a stop word. */
  lemma LineTagsWellFormed(line: string, stopWords: set<string>)
    ensures forall t :: t in LineTags(line, stopWords) ==> IsTag(t) && t !in stopWords
  {
    var c := CleanLine(line);
    SplitPieces(c, ch => IsLower(ch) || ch == '\'');
    KeptTagsWellFormed(Split(c), stopWords);
  }

  /** The same for all lines of an input. */
  lemma {:induction false} TagsWellFormed(lines: seq<string>, stopWords: set<string>)
    ensures forall t :: t in Tags(lines, stopWords) ==> IsTag(t) && t !in stopWords
  {
    if lines != [] {
      TagsWellFormed(lines[..|lines| - 1], stopWords);
      LineTagsWellFormed(lines[|lines| - 1], stopWords);
    }
  }

  lemma {:induction false} KeptTagsOfQuotes(parts: seq<string>, stopWords: set<string>)
    requires forall k, i :: 0 <= k < |parts| && 0 <= i < |parts[k]| ==> parts[k][i] == '\''
    ensures KeptTags(parts, stopWords) == []
  {
    if parts != [] {
      KeptTagsOfQuotes(parts[..|parts| - 1], stopWords);
      var p := parts[|parts| - 1];
      assert LeadingQuotes(p) == |p|;
    }
  }

  /** A line without letters (empty, only punctuation or digits, only
      apostrophes) contributes no tag. */
  lemma LineWithoutLetters(line: string, stopWords: set<string>)
    requires forall i :: 0 <= i < |line| ==> !IsLetter(line[i])
    ensures LineTags(line, stopWords) == []
  {
    var c := CleanLine(line);
    SplitPieces(c, ch => ch == '\'');
    KeptTagsOfQuotes(Split(c), stopWords);
  }

  /** An input made only of such lines has no tags at all. */
  lemma {:induction false} TagsWithoutLetters(lines: seq<string>, stopWords: set<string>)
    requires forall n, i :: 0 <= n < |lines| && 0 <= i < |lines[n]| ==> !IsLetter(lines[n][i])
    ensures Tags(lines, stopWords) == []
  {
    if lines != [] {
      TagsWithoutLetters(lines[..|lines| - 1], stopWords);
      LineWithoutLetters(lines[|lines| - 1], stopWords);
    }
  }

  /** A sequence of pieces yields no tag exactly when every piece strips to
      nothing or to a stop word. */
  lemma {:induction false} KeptTagsEmptyIff(parts: seq<string>, stopWords: set<string>)
    ensures KeptTags(parts, stopWords) == [] <==> forall k :: 0 <= k < |parts| ==> Dropped(parts[k], stopWords)
  {
    if parts != [] {
      var init, last := parts[..|parts| - 1], parts[|parts| - 1];
      KeptTagsEmptyIff(init, stopWords);
      assert KeptTags(parts, stopWords) == KeptTags(init, stopWords) + TagOf(last, stopWords);
      assert TagOf(last, stopWords) == [] <==> Dropped(last, stopWords);
      AllSnoc(parts, init, (p: string) => Dropped(p, stopWords));
    }
  }

  /** An input yields no tag exactly when none of its lines does. */
  lemma {:induction false} TagsEmptyIff(lines: seq<string>, stopWords: set<string>)
    ensures Tags(lines, stopWords) == [] <==> forall n :: 0 <= n < |lines| ==> LineTags(lines[n], stopWords) == []
  {
    if lines != [] {
      var init, last := lines[..|lines| - 1], lines[|lines| - 1];
      TagsEmptyIff(init, stopWords);
      assert Tags(lines, stopWords) == Tags(init, stopWords) + LineTags(last, stopWords);
      AllSnoc(lines, init, (line: string) => LineTags(line, stopWords) == []);
    }
  }

  lemma {:induction false} TagsLast(lines: seq<string>, stopWords: set<string>)
    requires lines != []
    ensures Tags(lines, stopWords)
         == Tags(lines[..|lines| - 1], stopWords) + LineTags(lines[|lines| - 1], stopWords)
  {
  }

  /** Case variants of a line yield the same tags: `toLowerCase` merges
      them before anything is counted. */
  lemma LineTagsIgnoreCase(x: string, y: string, stopWords: set<string>)
    requires EqualIgnoringCase(x, y)
    ensures LineTags(x, stopWords) == LineTags(y, stopWords)
  {
    CleanLineIgnoresCase(x, y);
  }

  /** Texts whose lines are pairwise case variants yield the same tags. */
  lemma {:induction false} TagsIgnoreCase(xs: seq<string>, ys: seq<string>, stopWords: set<string>)
    requires |xs| == |ys|
    requires forall n :: 0 <= n < |xs| ==> EqualIgnoringCase(xs[n], ys[n])
    ensures Tags(xs, stopWords) == Tags(ys, stopWords)
  {
    if xs != [] {
      var m := |xs| - 1;
      assert Tags(xs[..m], stopWords) == Tags(ys[..m], stopWords) by {
        TagsIgnoreCase(xs[..m], ys[..m], stopWords);
      }
      LineTagsIgnoreCase(xs[m], ys[m], stopWords);
    }
  }

  /** Lines are tokenised independently: the tags of two inputs read one
      after the other are the tags of the first followed by those of the
      second. */
  lemma {:induction false} TagsAppend(a: seq<string>, b: seq<string>, stopWords: set<string>)
    ensures Tags(a + b, stopWords) == Tags(a, stopWords) + Tags(b, stopWords)
    decreases |b|
  {
    if b == [] {
      assert a + b == a;
    } else {
      var b', last := b[..|b| - 1], b[|b| - 1];
      TagsAppendLast(a, b, stopWords);
      TagsAppend(a, b', stopWords);
      TagsLast(b, stopWords);
      SeqAssoc(Tags(a, stopWords), Tags(b', stopWords), LineTags(last, stopWords));
    }
  }

  lemma TagsAppendLast(a: seq<string>, b: seq<string>, stopWords: set<string>)
    requires b != []
    ensures Tags(a + b, stopWords) == Tags(a + b[..|b| - 1], stopWords) + LineTags(b[|b| - 1], stopWords)
  {
    SnocOfAppend(a, b);
    TagsLast(a + b, stopWords);
  }
}
