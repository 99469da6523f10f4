/** Parsers for the text that two OS tools print: the adapter table of
    `getmac /v /fo csv` and the timezone list of `tzutil /l`. The tools
    themselves are not modelled: each parser takes the captured standard
    output, or `None` when launching the tool raised an exception. */
module ToolOutput {
  import opened Wrappers
  import opened PyText

  // ---------------------------------------------------------------------
  // get_network_adapters
  // ---------------------------------------------------------------------

  /** One network adapter as the adapter list reports it. */
  datatype AdapterRecord = AdapterRecord(name: string, transport: string, mac: string)

  /** One data line of the CSV table: quotes removed, split on commas, kept
      when it has at least three fields and the third is not `N/A`. A line
      without a comma is never kept. */
  function ParseAdapterLine(line: string): (r: Option<AdapterRecord>)
    ensures r.Some? ==> r.value.mac != "N/A"
    ensures ',' !in line ==> r.None?
  {
    var s := RemoveChar(line, '"');
    var parts := Split(s, ',');
    assert ',' !in line ==> |parts| == 1 by {
      if ',' !in line {
        SplitNoSeparator(s, ',');
      }
    }
    if |parts| >= 3 && parts[2] != "N/A" then Some(AdapterRecord(parts[0], parts[1], parts[2])) else None
  }

  /** The records a sequence of data lines yields, in line order. */
  function AdapterRecords(lines: seq<string>): seq<AdapterRecord> {
    Collect(lines, ParseAdapterLine)
  }

  /** The lines after the header: `stdout.strip().split('\n')[1:]`. */
  function DataLines(stdout: string): seq<string> {
    Split(Strip(stdout), '\n')[1..]
  }

  /** `get_network_adapters`: parse each data line and append the records
      kept; a failed launch yields the empty list. */
  method GetNetworkAdapters(stdout: Option<string>) returns (adapters: seq<AdapterRecord>)
    ensures stdout.None? ==> adapters == []
    ensures stdout.Some? ==> adapters == AdapterRecords(DataLines(stdout.value))
  {
    adapters := [];
    if stdout.None? {
      return;
    }
    var lines := DataLines(stdout.value);
    var i := 0;
    while i < |lines|
      invariant 0 <= i <= |lines|
      invariant adapters == AdapterRecords(lines[..i])
    {
      AdapterRecordsStep(lines, i);
      var parts := Split(RemoveChar(lines[i], '"'), ',');
      ParseAdapterLineParts(lines[i]);
      if |parts| >= 3 && parts[2] != "N/A" {
        adapters := adapters + [AdapterRecord(parts[0], parts[1], parts[2])];
      }
      i := i + 1;
    }
    assert lines[..i] == lines;
  }

  /** The records of one more line: those of the lines before it, then the
      line's own record if it is kept. */
  lemma AdapterRecordsStep(lines: seq<string>, i: nat)
    requires i < |lines|
    ensures AdapterRecords(lines[..i + 1]) ==
      AdapterRecords(lines[..i]) + (if ParseAdapterLine(lines[i]).Some? then [ParseAdapterLine(lines[i]).value] else [])
  {
    assert lines[..i + 1] == lines[..i] + [lines[i]];
    AdapterRecordsAppend(lines[..i], [lines[i]]);
    AdapterRecordsSingle(lines[i]);
  }

  /** The parse of a line, spelled out on its comma-separated parts. */
  lemma ParseAdapterLineParts(line: string)
    ensures var parts := Split(RemoveChar(line, '"'), ',');
      ParseAdapterLine(line) ==
        if |parts| >= 3 && parts[2] != "N/A" then Some(AdapterRecord(parts[0], parts[1], parts[2])) else None
  {
  }

  /** A field as the records carry it: free of quotes and commas. */
  predicate CleanField(f: string) {
    '"' !in f && ',' !in f
  }

  /** Every field of a parsed line is free of quotes and commas, and the
      hardware address is not `N/A`. */
  lemma ParseAdapterLineClean(line: string)
    ensures ParseAdapterLine(line).Some? ==>
      var r := ParseAdapterLine(line).value;
      CleanField(r.name) && CleanField(r.transport) && CleanField(r.mac) && r.mac != "N/A"
  {
    var s := RemoveChar(line, '"');
    var parts := Split(s, ',');
    if |parts| >= 3 {
      SplitPieceChars(s, ',', 0);
      SplitPieceChars(s, ',', 1);
      SplitPieceChars(s, ',', 2);
    }
  }

  /** There are no more records than data lines; each record is the parse
      of one of the lines, with clean fields; every line that parses gives a
      record. */
  lemma AdapterRecordsExact(lines: seq<string>)
    ensures |AdapterRecords(lines)| <= |lines|
    ensures forall k :: 0 <= k < |AdapterRecords(lines)| ==>
      var r := AdapterRecords(lines)[k];
      && (exists j :: 0 <= j < |lines| && ParseAdapterLine(lines[j]) == Some(r))
      && CleanField(r.name) && CleanField(r.transport) && CleanField(r.mac) && r.mac != "N/A"
    ensures forall j :: 0 <= j < |lines| && ParseAdapterLine(lines[j]).Some? ==>
      ParseAdapterLine(lines[j]).value in AdapterRecords(lines)
  {
    CollectExact(lines, ParseAdapterLine);
    forall j | 0 <= j < |lines| {
      ParseAdapterLineClean(lines[j]);
    }
  }

  /** The characters of a piece of a split are characters of the string. */
  lemma {:induction false} SplitPieceChars(s: string, sep: char, k: nat)
    requires k < |Split(s, sep)|
    ensures forall c :: c in Split(s, sep)[k] ==> c in s
  {
    if |s| > 0 {
      var rest := Split(s[1..], sep);
      if s[0] == sep {
        if k > 0 {
          SplitPieceChars(s[1..], sep, k - 1);
        }
      } else {
        if k == 0 {
          SplitPieceChars(s[1..], sep, 0);
        } else {
          SplitPieceChars(s[1..], sep, k);
        }
      }
    }
  }

  lemma AdapterRecordsSingle(line: string)
    ensures AdapterRecords([line]) ==
      if ParseAdapterLine(line).Some? then [ParseAdapterLine(line).value] else []
  {
    CollectSingle(line, ParseAdapterLine);
  }

  /** Records come out in line order: the parse of two blocks of lines is
      the parse of the first followed by the parse of the second. */
  lemma AdapterRecordsAppend(a: seq<string>, b: seq<string>)
    ensures AdapterRecords(a + b) == AdapterRecords(a) + AdapterRecords(b)
  {
    CollectAppend(a, b, ParseAdapterLine);
  }

  /** A field written as CSV: in double quotes. */
  function Quote(f: string): string {
    "\"" + f + "\""
  }

  /** A row written as `getmac /fo csv` writes it: quoted fields joined by
      commas. */
  function QuotedCsvLine(fields: seq<string>): string {
    if |fields| == 0 then ""
    else if |fields| == 1 then Quote(fields[0])
    else Quote(fields[0]) + "," + QuotedCsvLine(fields[1..])
  }

  /** Removing the quotes of a quoted field gives back the field. */
  lemma UnquoteField(f: string)
    requires '"' !in f
    ensures RemoveChar(Quote(f), '"') == f
  {
    RemoveCharAbsent(f, '"');
    RemoveCharAppend("\"", f, '"');
    RemoveCharAppend("\"" + f, "\"", '"');
    assert RemoveChar("\"", '"') == "";
  }

  lemma {:induction false} UnquoteCsvLine(fields: seq<string>)
    requires forall k :: 0 <= k < |fields| ==> '"' !in fields[k]
    ensures RemoveChar(QuotedCsvLine(fields), '"') == Join(fields, ',')
  {
    if |fields| > 0 {
      var f := fields[0];
      UnquoteField(f);
      if |fields| > 1 {
        var rest := QuotedCsvLine(fields[1..]);
        UnquoteCsvLine(fields[1..]);
        RemoveCharAppend(Quote(f), ",", '"');
        RemoveCharAppend(Quote(f) + ",", rest, '"');
        assert RemoveChar(",", '"') == ",";
        calc {
          RemoveChar(QuotedCsvLine(fields), '"');
          RemoveChar(Quote(f) + "," + rest, '"');
          RemoveChar(Quote(f) + ",", '"') + RemoveChar(rest, '"');
          f + "," + Join(fields[1..], ',');
          Join(fields, ',');
        }
      }
    }
  }

  /** Parsing a quoted CSV row of at least three clean fields gives back its
      first three fields, unless the third is `N/A`. */
  lemma ParseQuotedRow(fields: seq<string>)
    requires |fields| >= 3
    requires forall k :: 0 <= k < |fields| ==> CleanField(fields[k])
    ensures ParseAdapterLine(QuotedCsvLine(fields)) ==
      if fields[2] == "N/A" then None else Some(AdapterRecord(fields[0], fields[1], fields[2]))
  {
    UnquoteCsvLine(fields);
    SplitJoin(fields, ',');
  }

  // ---------------------------------------------------------------------
  // get_available_timezones
  // ---------------------------------------------------------------------

  /** The list is cut to this many entries (`timezones[:50]`). */
  const TimezoneLimit: nat := 50

  /** The list returned when running the tool raises. */
  const FallbackTimezones: seq<string> :=
    ["UTC", "Pacific Standard Time", "Eastern Standard Time", "Central Standard Time"]

  /** `line.strip() and not line.startswith('(')`: the test is on the raw
      line, the entry is the stripped one. */
  predicate KeepsTimezoneLine(line: string) {
    Strip(line) != "" && !(|line| > 0 && line[0] == '(')
  }

  /** What one line of the listing contributes to the list. */
  function TimezoneEntry(line: string): Option<string> {
    if KeepsTimezoneLine(line) then Some(Strip(line)) else None
  }

  /** `[line.strip() for line in lines if ...]` */
  function TimezoneEntries(lines: seq<string>): seq<string> {
    Collect(lines, TimezoneEntry)
  }

  /** The entries of a listing: `output.strip().split('\n')`, filtered. */
  function TimezoneListing(out: string): seq<string> {
    TimezoneEntries(Split(Strip(out), '\n'))
  }

  /** `get_available_timezones`: never more than 50 entries, and never more
      than the listing holds; exactly 50 when the listing holds more. */
  function AvailableTimezones(stdout: Option<string>): (r: seq<string>)
    ensures |r| <= TimezoneLimit
    ensures stdout.Some? ==> |r| <= |TimezoneListing(stdout.value)|
    ensures stdout.Some? && |TimezoneListing(stdout.value)| > TimezoneLimit ==> |r| == TimezoneLimit
  {
    match stdout
    case None => FallbackTimezones
    case Some(out) =>
      TakePrefix(TimezoneListing(out), TimezoneLimit);
      Take(TimezoneListing(out), TimezoneLimit)
  }

  /** Every entry is the stripped form of a kept line, hence non-empty and
      trimmed; every kept line gives an entry; no more entries than lines. */
  lemma TimezoneEntriesExact(lines: seq<string>)
    ensures |TimezoneEntries(lines)| <= |lines|
    ensures forall k :: 0 <= k < |TimezoneEntries(lines)| ==>
      var e := TimezoneEntries(lines)[k];
      && (exists j :: 0 <= j < |lines| && KeepsTimezoneLine(lines[j]) && e == Strip(lines[j]))
      && e != "" && IsTrimmed(e)
    ensures forall j :: 0 <= j < |lines| && KeepsTimezoneLine(lines[j]) ==>
      Strip(lines[j]) in TimezoneEntries(lines)
  {
    CollectExact(lines, TimezoneEntry);
  }

  /** Entries keep the order of their lines. */
  lemma TimezoneEntriesAppend(a: seq<string>, b: seq<string>)
    ensures TimezoneEntries(a + b) == TimezoneEntries(a) + TimezoneEntries(b)
  {
    CollectAppend(a, b, TimezoneEntry);
  }

  /** The fallback list has four entries, none empty, each trimmed. */
  lemma FallbackTimezonesTrimmed()
    ensures |FallbackTimezones| == 4
    ensures forall k :: 0 <= k < |FallbackTimezones| ==>
      FallbackTimezones[k] != "" && IsTrimmed(FallbackTimezones[k])
  {
    assert forall k :: 0 <= k < |FallbackTimezones| ==>
      FallbackTimezones[k] != "" && !IsSpace(FallbackTimezones[k][0]) && !IsSpace(FallbackTimezones[k][|FallbackTimezones[k]| - 1]);
  }

  /** At most 50 entries, none empty, each trimmed; after a failed launch,
      the four fallback identifiers; otherwise the first entries of the
      filtered listing, in order: all of them when there are 50 or fewer,
      exactly 50 otherwise. */
  lemma AvailableTimezonesShape(stdout: Option<string>)
    ensures var r := AvailableTimezones(stdout);
      && |r| <= TimezoneLimit
      && (forall k :: 0 <= k < |r| ==> r[k] != "" && IsTrimmed(r[k]))
      && (stdout.None? ==> r == FallbackTimezones)
      && (stdout.Some? ==>
            var all := TimezoneListing(stdout.value);
            && r == all[..|r|]
            && (|all| <= TimezoneLimit ==> r == all)
            && (|all| > TimezoneLimit ==> |r| == TimezoneLimit))
  {
    if stdout.None? {
      FallbackTimezonesTrimmed();
    } else {
      var all := TimezoneListing(stdout.value);
      TimezoneEntriesExact(Split(Strip(stdout.value), '\n'));
      TakePrefix(all, TimezoneLimit);
    }
  }
}
