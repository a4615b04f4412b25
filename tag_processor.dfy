/** `TagProcessor`: the stop-word set it owns, loading that set, extracting
    the tag frequencies of a text and writing the report. A file to read is
    given as its sequence of lines; a file to write is returned as its
    sequence of lines, each with its terminator. */
module TagProcessing {
  import opened Sequences
  import opened Ascii
  import opened Tokenize
  import opened Frequency
  import opened Ranking
  import opened Report

  /** A stop-word line after `trim().toLowerCase()`. */
  function StopWordForm(line: string): string
  {
    ToLowerAscii(Trim(line))
  }

  /** The set a load of `lines` leaves behind: the normalised form of every
      line whose normalised form is not empty. */
  function StopWordSet(lines: seq<string>): set<string>
  {
    if lines == [] then {}
    else
      var w := StopWordForm(lines[|lines| - 1]);
      StopWordSet(lines[..|lines| - 1]) + (if w == [] then {} else {w})
  }

  /** Loading one more line adds its normalised form, unless that is empty. */
  lemma StopWordSetNext(lines: seq<string>, i: nat)
    requires i < |lines|
    ensures StopWordSet(lines[..i + 1])
         == StopWordSet(lines[..i]) + (if StopWordForm(lines[i]) == [] then {} else {StopWordForm(lines[i])})
  {
    assert lines[..i + 1][..i] == lines[..i];
  }

  /** The non-empty images of `lines` under `f`. */
  function NonEmptyForms(lines: seq<string>, f: string -> string): set<string>
  {
    set line | line in lines && f(line) != [] :: f(line)
  }

  lemma NonEmptyFormsLast(lines: seq<string>, f: string -> string)
    requires lines != []
    ensures var last := lines[|lines| - 1];
      NonEmptyForms(lines, f)
      == NonEmptyForms(lines[..|lines| - 1], f) + (if f(last) == [] then {} else {f(last)})
  {
    var prefix, last := lines[..|lines| - 1], lines[|lines| - 1];
    assert lines == prefix + [last];
    assert forall line :: line in lines <==> line in prefix || line == last;
  }

  /** The loaded set is exactly the set of non-empty normalised lines. */
  lemma {:induction false} StopWordSetIsNormalisedLines(lines: seq<string>)
    ensures StopWordSet(lines) == NonEmptyForms(lines, StopWordForm)
  {
    if lines != [] {
      var prefix, last := lines[..|lines| - 1], lines[|lines| - 1];
      StopWordSetIsNormalisedLines(prefix);
      NonEmptyFormsLast(lines, StopWordForm);
    }
  }

  /** A stop word has no upper-case letter and neither starts nor ends with
      a blank. */
  predicate IsNormalised(w: string)
  {
    && w != []
    && !IsBlank(w[0]) && !IsBlank(w[|w| - 1])
    && forall i :: 0 <= i < |w| ==> !IsUpper(w[i])
  }

  lemma StopWordFormNormalised(line: string)
    requires StopWordForm(line) != []
    ensures IsNormalised(StopWordForm(line))
  {
    var t := Trim(line);
    var w := ToLowerAscii(t);
    assert !IsUpper(t[0]) || !IsBlank(w[0]);
    assert !IsUpper(t[|t| - 1]) || !IsBlank(w[|w| - 1]);
  }

  /** Every stop word is non-empty, has no upper-case letter and neither
      starts nor ends with a blank. */
  lemma {:induction false} StopWordsAreNormalised(lines: seq<string>)
    ensures forall w :: w in StopWordSet(lines) ==> IsNormalised(w)
  {
    if lines != [] {
      var prefix, last := lines[..|lines| - 1], lines[|lines| - 1];
      StopWordsAreNormalised(prefix);
      if StopWordForm(last) != [] {
        StopWordFormNormalised(last);
      }
    }
  }

  /** A load leaves the set empty exactly when every line is blank. */
  lemma {:induction false} StopWordSetEmptyIff(lines: seq<string>)
    ensures StopWordSet(lines) == {}
        <==> forall n, i :: 0 <= n < |lines| && 0 <= i < |lines[n]| ==> IsBlank(lines[n][i])
  {
    if lines != [] {
      var prefix, last := lines[..|lines| - 1], lines[|lines| - 1];
      StopWordSetEmptyIff(prefix);
      TrimEmptyIff(last);
      assert forall n :: 0 <= n < |prefix| ==> prefix[n] == lines[n];
    }
  }

  lemma {:induction false} TallyLast(words: seq<string>, w: string)
    ensures Tally(words + [w]) == Increment(Tally(words), w)
  {
    assert (words + [w])[..|words|] == words;
  }

  /** The table of an input's tags maps exactly the tags that occur, each to
      its number of occurrences; every key is a well-formed tag and not a
      stop word. */
  lemma TableOfTags(lines: seq<string>, stopWords: set<string>)
    ensures var tags := Tags(lines, stopWords);
      && (forall w :: w in Tally(tags) <==> w in multiset(tags))
      && (forall w :: w in Tally(tags) ==> Tally(tags)[w] == multiset(tags)[w] >= 1)
      && (forall w :: w in Tally(tags) ==> IsTag(w) && w !in stopWords)
  {
    var tags := Tags(lines, stopWords);
    TallyCounts(tags);
    TagsWellFormed(lines, stopWords);
  }

  /** The table of an input is empty exactly when every piece of every
      cleaned and split line strips to nothing or to a stop word: lines
      without letters and lines made only of stop words count nothing. */
  lemma TableEmptyIff(lines: seq<string>, stopWords: set<string>)
    ensures Tally(Tags(lines, stopWords)) == map[]
        <==> forall n :: 0 <= n < |lines| ==>
               var parts := Split(CleanLine(lines[n]));
               forall k :: 0 <= k < |parts| ==> Dropped(parts[k], stopWords)
  {
    var tags := Tags(lines, stopWords);
    assert Tally(tags) == map[] <==> tags == [] by {
      TallyCounts(tags);
      if tags != [] {
        assert tags[0] in multiset(tags);
      }
    }
    TagsEmptyIff(lines, stopWords);
    forall n | 0 <= n < |lines|
      ensures LineTags(lines[n], stopWords) == []
          <==> var parts := Split(CleanLine(lines[n]));
               forall k :: 0 <= k < |parts| ==> Dropped(parts[k], stopWords)
    {
      KeptTagsEmptyIff(Split(CleanLine(lines[n])), stopWords);
    }
  }

  /** What counting one piece does to the table: nothing when its stripped
      form is empty or a stop word, one more occurrence of that form
      otherwise. */
  lemma CountPart(seen: seq<string>, part: string, stopWords: set<string>)
    ensures var w := StripQuotes(part);
      Tally(seen + TagOf(part, stopWords))
      == if w == [] || w in stopWords then Tally(seen) else Increment(Tally(seen), w)
  {
    var w := StripQuotes(part);
    if w == [] || w in stopWords {
      assert seen + TagOf(part, stopWords) == seen;
    } else {
      TallyLast(seen, w);
    }
  }

  /** Counting piece `j` after the pieces before it. */
  lemma CountNextPart(before: seq<string>, parts: seq<string>, j: nat, stopWords: set<string>)
    requires j < |parts|
    ensures StripQuotes(parts[j]) == [] || StripQuotes(parts[j]) in stopWords ==>
      Tally(before + KeptTags(parts[..j + 1], stopWords)) == Tally(before + KeptTags(parts[..j], stopWords))
    ensures StripQuotes(parts[j]) != [] && StripQuotes(parts[j]) !in stopWords ==>
      Tally(before + KeptTags(parts[..j + 1], stopWords))
      == Increment(Tally(before + KeptTags(parts[..j], stopWords)), StripQuotes(parts[j]))
  {
    var seen := before + KeptTags(parts[..j], stopWords);
    var tag := TagOf(parts[j], stopWords);
    assert before + KeptTags(parts[..j + 1], stopWords) == seen + tag by {
      KeptTagsLast(parts, j, stopWords);
      SeqAssoc(before, KeptTags(parts[..j], stopWords), tag);
    }
    CountPart(seen, parts[j], stopWords);
  }

  lemma {:induction false} KeptTagsLast(parts: seq<string>, j: nat, stopWords: set<string>)
    requires j < |parts|
    ensures KeptTags(parts[..j + 1], stopWords) == KeptTags(parts[..j], stopWords) + TagOf(parts[j], stopWords)
  {
    assert parts[..j + 1][..j] == parts[..j];
  }

  class TagProcessor {
    /** The stop words of the last load. */
    var stopWords: set<string>

    constructor ()
      ensures stopWords == {}
    {
      stopWords := {};
    }

    /** `loadStopWords`: clears the set, then adds the normalised form of each
        line that is not empty after normalisation. Nothing from an earlier
        load survives. */
    method LoadStopWords(lines: seq<string>)
      modifies this
      ensures stopWords == StopWordSet(lines)
    {
      stopWords := {};
      var i := 0;
      while i < |lines|
        invariant 0 <= i <= |lines|
        invariant stopWords == StopWordSet(lines[..i])
      {
        var line := ToLowerAscii(Trim(lines[i]));
        if line != [] {
          stopWords := stopWords + {line};
        }
        StopWordSetNext(lines, i);
        i := i + 1;
      }
      assert lines[..i] == lines;
    }

    /** `hasStopWords`: whether the last load kept any word. */
    method HasStopWords() returns (r: bool)
      ensures r <==> stopWords != {}
    {
      r := stopWords != {};
    }

    /** `extractTags`: counts the tags of every line. The table maps each tag
        to its number of occurrences; every key is a well-formed tag that is
        not a stop word, and every count is at least 1. */
    method ExtractTags(lines: seq<string>) returns (freq: map<string, nat>)
      ensures freq == Tally(Tags(lines, stopWords))
      ensures forall w :: w in freq <==> w in multiset(Tags(lines, stopWords))
      ensures forall w :: w in freq ==> freq[w] == multiset(Tags(lines, stopWords))[w] >= 1
      ensures forall w :: w in freq ==> IsTag(w) && w !in stopWords
    {
      freq := map[];
      var i := 0;
      while i < |lines|
        invariant 0 <= i <= |lines|
        invariant freq == Tally(Tags(lines[..i], stopWords))
      {
        var parts := Split(CleanLine(lines[i]));
        freq := CountParts(parts, freq, Tags(lines[..i], stopWords));
        assert parts[..|parts|] == parts;
        assert lines[..i + 1][..i] == lines[..i];
        TagsLast(lines[..i + 1], stopWords);
        i := i + 1;
      }
      assert lines[..i] == lines;
      TableOfTags(lines, stopWords);
    }

    /** The inner loop of `extractTags`: counts the pieces of one line into
        the table. */
    method CountParts(parts: seq<string>, freq0: map<string, nat>, ghost before: seq<string>)
      returns (freq: map<string, nat>)
      requires freq0 == Tally(before)
      ensures freq == Tally(before + KeptTags(parts, stopWords))
    {
      freq := freq0;
      assert before + KeptTags(parts[..0], stopWords) == before by {
        assert parts[..0] == [];
      }
      for j := 0 to |parts|
        invariant freq == Tally(before + KeptTags(parts[..j], stopWords))
      {
        CountNextPart(before, parts, j, stopWords);
        var w := parts[j];
        if w == [] {
          continue;
        }
        w := StripQuotes(w);
        if |w| < 1 {
          continue;
        }
        if w in stopWords {
          continue;
        }
        freq := Increment(freq, w);
      }
      assert parts[..|parts|] == parts;
    }

    /** `saveTags`: the header, the separator, then one row per entry in the
        given order. The lines read back as exactly the given entries. */
    method SaveTags(sortedTags: seq<Entry>, lineSeparator: string) returns (out: seq<string>)
      ensures IsReport(out, sortedTags, lineSeparator)
      ensures ParseReport(out, lineSeparator) == Some(sortedTags)
    {
      out := [Header() + lineSeparator, Separator + "\n"];
      for i := 0 to |sortedTags|
        invariant |out| == i + 2
        invariant out[0] == Header() + lineSeparator && out[1] == Separator + "\n"
        invariant forall k :: 0 <= k < i ==> out[k + 2] == Row(sortedTags[k]) + lineSeparator
      {
        out := out + [Row(sortedTags[i]) + lineSeparator];
      }
      ReportRoundTrip(out, sortedTags, lineSeparator);
    }
  }
}
