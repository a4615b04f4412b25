# TagProcessor in Dafny

This project models `TagProcessor`, the core of a small tag extractor. The
extractor has five steps:

1. It loads a stop-word list.
2. It reads a text line by line and turns each line into lower-case words made of letters and apostrophes.
3. It counts every word that is not a stop word.
4. It ranks the table by count, highest first, and breaks ties by key.
5. It writes the ranking as a fixed-layout text report.

The project has one module per stage:

- `Ascii`: character classes, ASCII lower-casing and `String.trim`.
- `Tokenize`: how one line becomes pieces and tags.
  - The `[^a-zA-Z']` replacement and lower-casing.
  - `split("\\s+")` with Java's rules: a string without whitespace is its own only field, and trailing empty fields are dropped.
  - Stripping of leading and trailing apostrophes.
  - Filtering of empty pieces and stop words.
- `Frequency`: the `put(w, getOrDefault(w, 0) + 1)` table and what it counts.
- `Ranking`: the comparator and `sortByFrequency`.
- `Report`: the `saveTags` layout, plus a reader that shows the layout loses nothing.
- `TagProcessing`: the class `TagProcessor`. It owns the stop-word set and has the methods `LoadStopWords`, `HasStopWords`, `ExtractTags` (whose inner loop over the pieces of one line is the method `CountParts`) and `SaveTags`. `sortByFrequency` keeps no state and is the function `Ranking.SortByFrequency`.
- `Scenarios`: whole-pipeline examples on concrete input.
- `Sequences`: small generic facts about sequences.

Files are replaced by values:

- A file that is read is given as its sequence of lines.
- A file that is written is returned as its sequence of lines, each with its terminator.
- The platform line separator (`%n`) is a parameter.

The model follows the code, which differs from the program's written description in two places:

- **Report layout.** The code writes the header as `%-6s %s`, which gives `Count`, two spaces, `Tag`. It writes rows as `%6d %s`: a right-aligned count, one space, then the tag. The separator is 24 dashes ended by `"\n"`. The model does not use a right-aligned `Count` heading, and it does not put two spaces between the count and the tag.
- **`hasStopWords`.** It returns a boolean, not a count of stop words.

Case mapping is ASCII only: `A`–`Z` become `a`–`z`, and every other character is left alone. The locale-dependent mappings of Java's `toLowerCase` are listed under "## Left out".

## Model

| member | source | states |
|---|---|---|
| `Ascii.ToLower` | src/TagProcessor.java:32 | An upper-case letter becomes the lower-case letter at the same position in the alphabet. Every other character is unchanged. The result is never upper-case. |
| `Ascii.ToLowerAscii` | src/TagProcessor.java:16 | `toLowerCase` keeps the length. At each position an upper-case letter becomes its lower-case partner, and every other character stays as it is. |
| `Ascii.ToLowerAsciiIdempotent` | src/TagProcessor.java:16 | Lower-casing twice is the same as lower-casing once. |
| `Ascii.Trim` | src/TagProcessor.java:16 | `trim` returns the slice after the leading blanks (characters up to U+0020). Everything removed is blank, and a non-empty result starts and ends with a non-blank character. |
| `Ascii.TrimEmptyIff` | src/TagProcessor.java:16-17 | A line trims to the empty string exactly when every character is blank. |
| `Ascii.TrimAround` | src/TagProcessor.java:16 | Blank padding around a word that starts and ends non-blank trims back to that word. |
| `Ascii.TrimIdempotent` | src/TagProcessor.java:16 | Trimming twice is the same as trimming once. |
| `Tokenize.ReplaceNonWordChars` | src/TagProcessor.java:32 | `replaceAll("[^a-zA-Z']", " ")` keeps the length. It keeps every letter and apostrophe in place and turns every other character into a space. |
| `Tokenize.CleanLine` | src/TagProcessor.java:32 | A cleaned line has the same length as the input and contains only lower-case letters, apostrophes and spaces. Position by position: an upper-case letter becomes its lower-case partner, lower-case letters and apostrophes stay, and every other character becomes a space. |
| `Tokenize.CleanLineIgnoresCase` | src/TagProcessor.java:32 | Two lines that differ only in the case of their letters clean to the same line. |
| `Tokenize.CleanLineAppend` | src/TagProcessor.java:32 | Cleaning works character by character: cleaning a concatenation is concatenating the cleaned parts. |
| `Tokenize.CleanLineOfLower` | src/TagProcessor.java:32 | A line already made of lower-case letters, apostrophes and spaces is unchanged by cleaning. |
| `Tokenize.Split` | src/TagProcessor.java:33 | Definition of `split("\\s+")`. A string without whitespace is its own only piece. Otherwise the string is cut at each whitespace run and trailing empty pieces are dropped. Its meaning is stated by `SplitPieces`, `SplitKeepsNonSpace` and `SplitJoinWords`. |
| `Tokenize.DropTrailingEmpty` | src/TagProcessor.java:33 | `split` drops only empty fields, only at the end, and leaves a result whose last field is not empty. |
| `Tokenize.SplitPieces` | src/TagProcessor.java:33 | No split piece contains whitespace. If every non-whitespace character of the input belongs to some character class, then so does every character of every piece. |
| `Tokenize.SplitKeepsNonSpace` | src/TagProcessor.java:33 | Concatenating the pieces of `split("\\s+")` gives the input with all whitespace removed, so no character other than whitespace is lost. |
| `Tokenize.FieldsStep` | src/TagProcessor.java:33 | A word followed by a whitespace run splits into that word followed by the fields of the rest. |
| `Tokenize.SplitJoinWords` | src/TagProcessor.java:33 | Splitting words joined by single spaces gives back exactly those words. |
| `Tokenize.StripQuotes` | src/TagProcessor.java:37 | `replaceAll("^'+\|'+$", "")` removes exactly the leading and trailing apostrophes. It returns the middle slice, and a non-empty result neither starts nor ends with an apostrophe. |
| `Tokenize.StripQuotesUnquoted` | src/TagProcessor.java:37 | A piece that neither starts nor ends with an apostrophe is unchanged. |
| `Tokenize.StripQuotesAround` | src/TagProcessor.java:37 | Any apostrophes around a word are removed and the word is returned. |
| `Tokenize.StripQuotesIdempotent` | src/TagProcessor.java:37 | Stripping twice is the same as stripping once. |
| `Tokenize.TagOf` | src/TagProcessor.java:35-40 | Definition of one iteration of the inner loop. A piece contributes its apostrophe-stripped form unless that form is empty or a stop word. An empty piece also strips to the empty string, so the test at line 35 is covered. Its effect on the table is stated by `TagProcessing.CountPart`. |
| `Tokenize.KeptTags` | src/TagProcessor.java:34-41 | Definition of the inner loop: the contributions of the pieces, in order. Its meaning is stated by `KeptTagsEmptyIff`, `KeptTagsFilter` and `KeptTagsAppend`. |
| `Tokenize.LineTags` | src/TagProcessor.java:32-41 | Definition of one iteration of the outer loop: clean the line, split it, keep the tags of its pieces. |
| `Tokenize.Tags` | src/TagProcessor.java:30-42 | Definition of the tags of all lines, line after line. Its meaning is stated by `TagsWellFormed`, `TagsEmptyIff`, `TagsAppend` and `TagsIgnoreCase`. |
| `Tokenize.KeptTagsFilter` | src/TagProcessor.java:34-41 | For pieces that are already tags, extraction only removes the stop words and keeps order. |
| `Tokenize.KeptTagsOfTags` | src/TagProcessor.java:34-41 | Tags that are not stop words are all kept, unchanged and in order. |
| `Tokenize.KeptTagsAppend` | src/TagProcessor.java:34-41 | Pieces are judged one at a time: the tags of two runs of pieces are the tags of the first run followed by those of the second. |
| `Tokenize.KeptTagsOfQuotes` | src/TagProcessor.java:37-38 | Pieces made only of apostrophes contribute nothing. |
| `Tokenize.KeptTagsEmptyIff` | src/TagProcessor.java:35-39 | Pieces yield no tag exactly when every piece strips to the empty string or to a stop word. |
| `Tokenize.LineTagsWellFormed` | src/TagProcessor.java:32-39 | Every tag of a line is non-empty and lower-case. It is made of letters and apostrophes, has no apostrophe at either end, and is not a stop word. |
| `Tokenize.LineWithoutLetters` | src/TagProcessor.java:32-38 | A line without letters yields no tag. |
| `Tokenize.TagsWellFormed` | src/TagProcessor.java:30-39 | Every tag of every line is well formed and not a stop word. |
| `Tokenize.TagsWithoutLetters` | src/TagProcessor.java:30-42 | A text without letters yields no tags. |
| `Tokenize.TagsEmptyIff` | src/TagProcessor.java:30-42 | A text yields no tags exactly when each of its lines yields none. |
| `Tokenize.TagsAppend` | src/TagProcessor.java:30-42 | Lines are processed independently: the tags of two texts read one after the other are the tags of the first followed by those of the second. |
| `Tokenize.LineTagsIgnoreCase` | src/TagProcessor.java:32-41 | Lines that differ only in the case of their letters have the same tags, so case variants are counted as one tag. |
| `Tokenize.TagsIgnoreCase` | src/TagProcessor.java:30-42 | Texts whose lines are pairwise case variants have the same tags, and therefore the same table. |
| `Frequency.Increment` | src/TagProcessor.java:40 | `put(w, getOrDefault(w, 0) + 1)` adds `w` to the keys. It sets the count of `w` to its old count plus one, or to 1 if `w` was absent, and leaves every other count as it was. |
| `Frequency.Tally` | src/TagProcessor.java:27-44 | Definition of the table built from an empty map by one `put` per word, in order. Its meaning is stated by `TallyCounts`. |
| `Frequency.TallyCounts` | src/TagProcessor.java:27-44 | The keys of the table are exactly the words that were counted. Each key maps to its number of occurrences, which is at least 1. |
| `Frequency.TallyOrderIrrelevant` | src/TagProcessor.java:27-44 | The table depends only on how many times each word occurs, not on their order. |
| `Ranking.CompareTo` | src/TagProcessor.java:51 | `String.compareTo` is zero exactly for equal strings. |
| `Ranking.CompareToLexicographic` | src/TagProcessor.java:51 | `compareTo` is negative exactly when the first string comes lexicographically before the second: it is a proper prefix, or it has the smaller character at the first position where the two differ. So ties are broken with keys ascending. |
| `Ranking.CompareToAntisymmetric` | src/TagProcessor.java:51 | Swapping the arguments of `compareTo` negates the result. |
| `Ranking.CompareToTransitive` | src/TagProcessor.java:51 | `compareTo` is a transitive order. |
| `Ranking.IntCompare` | src/TagProcessor.java:50 | `Integer.compare` is negative, zero or positive exactly when the first count is smaller than, equal to or larger than the second. |
| `Ranking.Compare` | src/TagProcessor.java:50-51 | Definition of the comparator: the reversed count comparison, then `compareTo` on the keys when the counts are equal. |
| `Ranking.Precedes` | src/TagProcessor.java:50-51 | Definition of "sorts before": the comparator is negative. Its meaning is stated by `PrecedesMeaning`. |
| `Ranking.PrecedesMeaning` | src/TagProcessor.java:50-51 | An entry sorts first exactly when its count is higher, or its count is equal and its key is smaller by `compareTo`. |
| `Ranking.PrecedesAsymmetric` | src/TagProcessor.java:50-51 | The comparator never puts two entries each before the other. |
| `Ranking.PrecedesTransitive` | src/TagProcessor.java:50-51 | The comparator is transitive. |
| `Ranking.PrecedesTotal` | src/TagProcessor.java:50-51 | The comparator orders any two entries with different keys. |
| `Ranking.OrderedAll` | src/TagProcessor.java:50-51 | In a sorted list, every entry sorts before every later one. |
| `Ranking.SortByFrequency` | src/TagProcessor.java:47-53 | The result is a permutation of the table's entries: one entry per key, with that key's count. Each entry sorts before the next. |
| `Ranking.RankingUnique` | src/TagProcessor.java:47-53 | Two sorted lists without duplicate keys and with the same entries are equal, so the order of the hash map does not matter. |
| `Ranking.SortedIsUnique` | src/TagProcessor.java:47-53 | Any sorted list of the table's entries is the result of `SortByFrequency`. |
| `Ranking.ResortUnchanged` | src/TagProcessor.java:47-53 | Sorting the entries of a list that is already sorted gives the same list back. |
| `Report.PadRight` | src/TagProcessor.java:57 | `%-6s` is the text followed by spaces up to the width, and never truncates. |
| `Report.PadLeft` | src/TagProcessor.java:60 | `%6d` pads with spaces in front up to the width, and never truncates. |
| `Report.Decimal` | src/TagProcessor.java:60 | `%d` of a count is a non-empty run of decimal digits without a leading zero. |
| `Report.DecimalRoundTrip` | src/TagProcessor.java:60 | Reading the digits of a formatted count gives back the count. |
| `Report.Header` | src/TagProcessor.java:57 | The header text is `Count  Tag`. |
| `Report.SeparatorShape` | src/TagProcessor.java:58 | The separator line is 24 dashes. |
| `Report.Row` | src/TagProcessor.java:60 | Definition of `%6d %s` without the line separator. Its meaning is stated by `RowRoundTrip`. |
| `Report.RowRoundTrip` | src/TagProcessor.java:60 | Every row reads back as the entry it was formatted from, for any width of count and any key. |
| `Report.RowsRoundTrip` | src/TagProcessor.java:59-60 | The row lines read back as the entries, in order. |
| `Report.ReportRoundTrip` | src/TagProcessor.java:57-60 | A whole report reads back as exactly the entries it was written from, in order. |
| `TagProcessing.StopWordForm` | src/TagProcessor.java:16 | Definition of `trim().toLowerCase()` of a stop-word line. Its meaning is stated by `StopWordFormNormalised`. |
| `TagProcessing.StopWordSet` | src/TagProcessor.java:12-18 | Definition of the set a load leaves behind: the form of each line, added when it is not empty. Its meaning is stated by `StopWordSetIsNormalisedLines` and `StopWordSetEmptyIff`. |
| `TagProcessing.StopWordSetNext` | src/TagProcessor.java:15-18 | Reading one more line adds that line's trimmed, lower-cased form to the set, unless the form is empty. |
| `TagProcessing.StopWordSetIsNormalisedLines` | src/TagProcessor.java:12-18 | After a load, the set is exactly the non-empty trimmed, lower-cased forms of the lines. |
| `TagProcessing.StopWordFormNormalised` | src/TagProcessor.java:16 | A non-empty normalised line has no blank at either end and no upper-case letter. |
| `TagProcessing.StopWordsAreNormalised` | src/TagProcessor.java:16-17 | Every stop word is non-empty, has no blank at either end and has no upper-case letter. |
| `TagProcessing.StopWordSetEmptyIff` | src/TagProcessor.java:12-18 | A load leaves the set empty exactly when every line is blank. |
| `TagProcessing.TableOfTags` | src/TagProcessor.java:26-44 | The table maps exactly the tags that occur, each to its number of occurrences. Every key is a well-formed tag and not a stop word. |
| `TagProcessing.TableEmptyIff` | src/TagProcessor.java:30-42 | The table is empty exactly when every piece of every cleaned, split line strips to nothing or to a stop word. |
| `TagProcessing.CountPart` | src/TagProcessor.java:35-40 | An empty or stop-word piece leaves the table unchanged. Any other piece adds one occurrence of its stripped form. |
| `TagProcessing.CountNextPart` | src/TagProcessor.java:34-40 | Counting the next piece of a line follows the skips at lines 35, 38 and 39, or else adds one occurrence of the stripped piece. |
| `TagProcessing.TagProcessor.constructor` | src/TagProcessor.java:9 | A new processor has no stop words. |
| `TagProcessing.TagProcessor.LoadStopWords` | src/TagProcessor.java:11-20 | The set is cleared first, so nothing from an earlier load survives. It then holds exactly the normalised forms of the non-blank lines. |
| `TagProcessing.TagProcessor.HasStopWords` | src/TagProcessor.java:22-24 | The result is true exactly when the set is not empty. |
| `TagProcessing.TagProcessor.ExtractTags` | src/TagProcessor.java:26-45 | The table is the count of the tags the lines yield. Its keys are exactly those tags, each count is the tag's number of occurrences among them and at least 1, and every key is a well-formed tag that is not a stop word. |
| `TagProcessing.TagProcessor.CountParts` | src/TagProcessor.java:34-41 | Counting the pieces of one line adds exactly the tags of that line to the table. |
| `TagProcessing.TagProcessor.SaveTags` | src/TagProcessor.java:55-63 | The output is the header, the separator, then one row per entry in the given order. It reads back as exactly the given entries. |
| `Scenarios.CaseFolding` | src/TagProcessor.java:32-40 | `The the THE` counts `the` three times. |
| `Scenarios.Apostrophes` | src/TagProcessor.java:37-40 | `'tis 'Tis don't` counts `tis` twice and `don't` once: outer apostrophes are stripped and inner ones kept. |
| `Scenarios.HelloWorld` | src/TagProcessor.java:32-40 | `hello, world! hello-world.` counts `hello` and `world` twice each, because punctuation separates words. |
| `Scenarios.Hello` | src/TagProcessor.java:32-40 | The same holds for any two distinct, non-empty, lower-case words that are not stop words. |
| `Scenarios.StopWordsExample` | src/TagProcessor.java:15-18 | The lines `The` and `  AND ` load as the stop words `the` and `and`. |
| `Scenarios.StopWordsAndRanking` | src/TagProcessor.java:11-52 | With those stop words, `The dog and the cat` ranks `cat` then `dog`, once each. |
| `Scenarios.CatSatOnTheMat` | src/TagProcessor.java:26-52 | With stop words `the` and `on`, `the cat sat on the mat` ranks `cat`, `mat`, `sat`, once each, ordered by key. |
| `Scenarios.CountBeforeKey` | src/TagProcessor.java:50-51 | A higher count ranks first even when its key is larger. |
| `Scenarios.RowLayout` | src/TagProcessor.java:60 | The entry `cat` with count 12 is formatted as four spaces, `12`, one space, then `cat`. |

## Left out

- File I/O. `Path` arguments, `BufferedReader`/`BufferedWriter`, character sets and `IOException` are replaced by sequences of lines. A load that fails part way, leaving the set cleared or partly filled, is not modelled.
- The regular-expression engine. Each `replaceAll` and `split` is modelled by its effect on the characters.
- `TagProcessing.TagProcessor.LoadStopWords`: lowers only `A`–`Z`. Java's `toLowerCase` also lowers non-ASCII letters in a stop-word line, and some of them become ASCII. For example, KELVIN SIGN (U+212A) becomes `k`, so the line `\u212Aey` excludes the tag `key` in Java but not in the model. In a Turkish or Azeri locale, `I` also maps differently.
- `Tokenize.CleanLine`: lowers `A`–`Z` to `a`–`z`. Java's `toLowerCase()` uses the default locale. In a Turkish or Azeri locale, `I` becomes the dotless `ı` (U+0131), so `TITLE` yields the key `tıtle`. The model, and `Tokenize.IsTag`, cover only the locale-independent mapping.
- `Frequency.Increment`: counts are unbounded naturals. Java's `Integer` would overflow after 2147483647 occurrences of one tag.
- `Report.Row`: counts are naturals. A negative `Integer` in an entry passed to `saveTags` is not modelled. `extractTags` never produces one. Digits are ASCII, as in a locale whose zero digit is `0`.
- `Ranking.CompareTo`: compares characters, while Java compares UTF-16 code units. The two agree on every key `extractTags` produces, which contains only `a`–`z` and apostrophes.
- `Ranking.SortByFrequency`: specified by its result, not by the stream's sorting algorithm. `Ranking.RankingUnique` shows that any correct sort gives this list, whatever the hash map's iteration order.
- The `w == null` test in `extractTags`. `split` never returns a null piece, and the model has no null.
- The platform line separator. `%n` is the `lineSeparator` parameter of `SaveTags`.
- The graphical front end. `TagExtractorGUI.java` is not part of this model.
