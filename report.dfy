/** The report `saveTags` writes: a header formatted with `"%-6s %s%n"`, a
    line of 24 dashes ended by `"\n"`, then one `"%6d %s%n"` line per entry.
    `%n` is the platform line separator, a parameter here. The functions that
    read a report back show that the layout loses nothing. */
module Report {
  import opened Sequences
  import opened Ranking

  datatype Option<T> = None | Some(value: T)

  /** `n` spaces. */
  function Spaces(n: nat): (r: string)
    ensures |r| == n
    ensures forall i :: 0 <= i < n ==> r[i] == ' '
  {
    seq(n, _ => ' ')
  }

  /** `%-<width>s`: `s` followed by spaces up to `width` characters; never
      truncated. */
  function PadRight(s: string, width: nat): (r: string)
    ensures |r| == if |s| < width then width else |s|
    ensures r[..|s|] == s
    ensures forall i :: |s| <= i < |r| ==> r[i] == ' '
  {
    if |s| < width then s + Spaces(width - |s|) else s
  }

  /** `%<width>s`: spaces up to `width` characters followed by `s`; never
      truncated. */
  function PadLeft(s: string, width: nat): (r: string)
    ensures |r| == if |s| < width then width else |s|
    ensures r[|r| - |s|..] == s
    ensures forall i :: 0 <= i < |r| - |s| ==> r[i] == ' '
  {
    if |s| < width then Spaces(width - |s|) + s else s
  }

  predicate IsDigit(c: char) { '0' <= c <= '9' }

  function DigitChar(d: nat): (c: char)
    requires d < 10
    ensures IsDigit(c)
    ensures c as int - '0' as int == d
  {
    ('0' as int + d) as char
  }

  /** `%d` of a non-negative count: its decimal digits, without a leading
      zero. */
  function Decimal(n: nat): (r: string)
    ensures r != []
    ensures forall i :: 0 <= i < |r| ==> IsDigit(r[i])
    ensures |r| > 1 ==> r[0] != '0'
  {
    if n < 10 then [DigitChar(n)] else Decimal(n / 10) + [DigitChar(n % 10)]
  }

  /** The value of a string of decimal digits. */
  function ParseDecimal(s: string): nat
    requires forall i :: 0 <= i < |s| ==> IsDigit(s[i])
  {
    if s == [] then 0
    else
      assert IsDigit(s[|s| - 1]);
      10 * ParseDecimal(s[..|s| - 1]) + (s[|s| - 1] as int - '0' as int)
  }

  /** Reading a formatted count back gives the count. */
  lemma {:induction false} DecimalRoundTrip(n: nat)
    ensures ParseDecimal(Decimal(n)) == n
  {
    var d := Decimal(n);
    if n >= 10 {
      DecimalRoundTrip(n / 10);
      assert d[..|d| - 1] == Decimal(n / 10);
    }
  }

  /** Width of the count column. */
  const CountWidth: nat := 6

  /** `String.format("%-6s %s", "Count", "Tag")`, without the line separator. */
  function Header(): (h: string)
    ensures h == "Count  Tag"
  {
    PadRight("Count", CountWidth) + " " + "Tag"
  }

  /** The separator line, without its `"\n"`. */
  const Separator: string := "------------------------"

  lemma SeparatorShape()
    ensures |Separator| == 24
    ensures forall i :: 0 <= i < |Separator| ==> Separator[i] == '-'
  {
  }

  /** `String.format("%6d %s", count, key)`, without the line separator. */
  function Row(e: Entry): string
  {
    PadLeft(Decimal(e.count), CountWidth) + " " + e.key
  }

  /** Number of spaces at the start of `s`. */
  function LeadingSpaces(s: string): (n: nat)
    ensures n <= |s|
    ensures forall i :: 0 <= i < n ==> s[i] == ' '
    ensures n < |s| ==> s[n] != ' '
  {
    if s != [] && s[0] == ' ' then 1 + LeadingSpaces(s[1..]) else 0
  }

  /** Number of decimal digits at the start of `s`. */
  function LeadingDigits(s: string): (n: nat)
    ensures n <= |s|
    ensures forall i :: 0 <= i < n ==> IsDigit(s[i])
    ensures n < |s| ==> !IsDigit(s[n])
  {
    if s != [] && IsDigit(s[0]) then 1 + LeadingDigits(s[1..]) else 0
  }

  /** Reads one row back: optional spaces, the digits of the count, one
      space, then the key (everything up to the end of the row). */
  function ParseRow(row: string): Option<Entry>
  {
    var body := row[LeadingSpaces(row)..];
    var d := LeadingDigits(body);
    if d == 0 || d == |body| || body[d] != ' ' then None
    else Some(Entry(body[d + 1..], ParseDecimal(body[..d])))
  }

  /** Every row reads back as the entry it was formatted from, whatever the
      count's width and whatever the key. */
  lemma RowRoundTrip(e: Entry)
    ensures ParseRow(Row(e)) == Some(e)
  {
    var digits := Decimal(e.count);
    var pad := if |digits| < CountWidth then CountWidth - |digits| else 0;
    var spaces := Spaces(pad);
    assert PadLeft(digits, CountWidth) == spaces + digits;
    assert Row(e) == spaces + (digits + " " + e.key) by {
      SeqAssoc(spaces + digits, " ", e.key);
      SeqAssoc(spaces, digits, " " + e.key);
      SeqAssoc(digits, " ", e.key);
    }
    ParseRowOfParts(pad, digits, e.key);
    DecimalRoundTrip(e.count);
  }

  /** Spaces, then digits, one space and a key read back as the key and the
      value of the digits. */
  lemma ParseRowOfParts(pad: nat, digits: string, key: string)
    requires digits != [] && forall i :: 0 <= i < |digits| ==> IsDigit(digits[i])
    ensures ParseRow(Spaces(pad) + (digits + " " + key)) == Some(Entry(key, ParseDecimal(digits)))
  {
    SpacesThenBody(pad, digits + " " + key);
    DigitsThenKey(digits, key);
  }

  lemma SpacesThenBody(pad: nat, body: string)
    requires body != [] && body[0] != ' '
    ensures var row := Spaces(pad) + body;
      LeadingSpaces(row) == pad && row[pad..] == body
  {
    LeadingSpacesPrefix(Spaces(pad) + body, pad);
  }

  lemma DigitsThenKey(digits: string, key: string)
    requires digits != [] && forall i :: 0 <= i < |digits| ==> IsDigit(digits[i])
    ensures var body := digits + " " + key;
      && LeadingDigits(body) == |digits| < |body|
      && body[|digits|] == ' '
      && body[..|digits|] == digits
      && body[|digits| + 1..] == key
  {
    var body := digits + " " + key;
    assert body[..|digits|] == digits && body[|digits|] == ' ';
    LeadingDigitsPrefix(body, |digits|);
    assert body[|digits| + 1..] == key;
  }

  lemma {:induction false} LeadingSpacesPrefix(s: string, n: nat)
    requires n <= |s|
    requires forall i :: 0 <= i < n ==> s[i] == ' '
    requires n < |s| ==> s[n] != ' '
    ensures LeadingSpaces(s) == n
  {
    if n > 0 {
      LeadingSpacesPrefix(s[1..], n - 1);
    }
  }

  lemma {:induction false} LeadingDigitsPrefix(s: string, n: nat)
    requires n <= |s|
    requires forall i :: 0 <= i < n ==> IsDigit(s[i])
    requires n < |s| ==> !IsDigit(s[n])
    ensures LeadingDigits(s) == n
  {
    if n > 0 {
      LeadingDigitsPrefix(s[1..], n - 1);
    }
  }

  /** `lines` is the report of `entries`: header, separator, then one row per
      entry in the given order, each line with its terminator. */
  predicate IsReport(lines: seq<string>, entries: seq<Entry>, lineSeparator: string)
  {
    && |lines| == |entries| + 2
    && lines[0] == Header() + lineSeparator
    && lines[1] == Separator + "\n"
    && forall i :: 0 <= i < |entries| ==> lines[i + 2] == Row(entries[i]) + lineSeparator
  }

  /** Reads the rows of a report back, each line ending in `lineSeparator`. */
  function ParseRows(lines: seq<string>, lineSeparator: string): Option<seq<Entry>>
  {
    if lines == [] then Some([])
    else
      var line := lines[0];
      if |line| < |lineSeparator| || line[|line| - |lineSeparator|..] != lineSeparator then None
      else
        match ParseRow(line[..|line| - |lineSeparator|])
        case None => None
        case Some(e) =>
          match ParseRows(lines[1..], lineSeparator)
          case None => None
          case Some(rest) => Some([e] + rest)
  }

  /** Reads a whole report back: header and separator, then the rows. */
  function ParseReport(lines: seq<string>, lineSeparator: string): Option<seq<Entry>>
  {
    if |lines| < 2 || lines[0] != Header() + lineSeparator || lines[1] != Separator + "\n" then None
    else ParseRows(lines[2..], lineSeparator)
  }

  lemma {:induction false} RowsRoundTrip(lines: seq<string>, entries: seq<Entry>, lineSeparator: string)
    requires |lines| == |entries|
    requires forall i :: 0 <= i < |entries| ==> lines[i] == Row(entries[i]) + lineSeparator
    ensures ParseRows(lines, lineSeparator) == Some(entries)
  {
    if lines != [] {
      var line := lines[0];
      assert ParseRow(line[..|line| - |lineSeparator|]) == Some(entries[0]) by {
        assert line[..|line| - |lineSeparator|] == Row(entries[0]);
        RowRoundTrip(entries[0]);
      }
      assert line[|line| - |lineSeparator|..] == lineSeparator;
      assert ParseRows(lines[1..], lineSeparator) == Some(entries[1..]) by {
        RowsRoundTrip(lines[1..], entries[1..], lineSeparator);
      }
      assert entries == [entries[0]] + entries[1..];
    }
  }

  /** A report reads back as exactly the entries it was written from, in
      order. */
  lemma ReportRoundTrip(lines: seq<string>, entries: seq<Entry>, lineSeparator: string)
    requires IsReport(lines, entries, lineSeparator)
    ensures ParseReport(lines, lineSeparator) == Some(entries)
  {
    RowsRoundTrip(lines[2..], entries, lineSeparator);
  }
}
