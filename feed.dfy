/**
 * The feed reader of the product page (`parseCSV`): the fetched sheet text is
 * cut into lines at every line feed, line 0 is the header, and every later
 * line that still holds at least seven comma-separated values after trimming
 * becomes one product. Columns are taken by position; the header's content is
 * never consulted.
 */
module Feed {
  import opened Options
  import opened JsString

  /** One product of the sheet, with the seven columns in their fixed order. */
  datatype Product = Product(
    id: int,
    category: string,
    gender: string,
    size: string,
    url: string,
    status: string,
    notes: string)

  /** A line becomes a product only when it splits into at least this many values. */
  const MinValues: nat := 7

  /**
   * `parseInt(values[0]) || i`: the integer at the start of the first value,
   * unless that is `NaN` or 0 (both falsy), in which case the line index.
   */
  function RecordId(first: string, i: nat): int
  {
    match ParseInt(first)
    case Some(n) => if n != 0 then n else i
    case None => i
  }

  /** A sequence number written in decimal is the id, unless it is 0, which falls back to the line index. */
  lemma RecordIdOfDecimal(n: int, rest: string, i: nat)
    requires rest == [] || DigitValue(rest[0]) >= 10
    requires n == 0 && rest != [] ==> rest[0] != 'x' && rest[0] != 'X'
    ensures RecordId(IntToString(n) + rest, i) == if n != 0 then n else i
  {
    ParseIntReadsDecimal(n, rest);
  }

  /** A first value without any decimal digit (empty, a word, a lone sign) gives the line index. */
  lemma RecordIdWithoutDigits(first: string, i: nat)
    requires forall k :: 0 <= k < |first| ==> DigitValue(first[k]) >= 10
    ensures RecordId(first, i) == i
  {
    ParseIntNaN(first);
  }

  /** Past the header line the id is never 0, whatever the first value holds. */
  lemma RecordIdNonZero(first: string, i: nat)
    requires i >= 1
    ensures RecordId(first, i) != 0
  {
  }

  /** The comma-separated values of a line after trimming it; a blank line has none. */
  function ValuesOf(line: string): (values: seq<string>)
  {
    var trimmed := Trim(line);
    if trimmed == [] then [] else Split(trimmed, ',')
  }

  /** The product built from a line's values, when there are enough of them. */
  function FromValues(values: seq<string>, i: nat): (r: Option<Product>)
  {
    if |values| < MinValues then None
    else Some(Product(RecordId(values[0], i), Trim(values[1]), Trim(values[2]),
                      Trim(values[3]), Trim(values[4]), Trim(values[5]), Trim(values[6])))
  }

  /** One pass of the loop body of `parseCSV` for line `line` at index `i`: the product it pushes, if any. */
  function RecordOf(line: string, i: nat): (r: Option<Product>)
  {
    FromValues(ValuesOf(line), i)
  }

  /** What the loop has pushed once it has looked at lines 1 .. k-1. */
  function Collect(lines: seq<string>, k: nat): (r: seq<Product>)
    requires k <= |lines|
  {
    if k <= 1 then [] else Collect(lines, k - 1) + AsSeq(RecordOf(lines[k - 1], k - 1))
  }

  /** The products `parseCSV(text)` returns. */
  function Parsed(text: string): (r: seq<Product>)
  {
    var lines := Split(text, '\n');
    Collect(lines, |lines|)
  }

  /** `parseCSV` as the page runs it: a loop over the lines that pushes one product per kept line. */
  method ParseCsv(text: string) returns (products: seq<Product>)
    ensures products == Parsed(text)
  {
    var lines := Split(text, '\n');
    products := [];
    for i := 1 to |lines|
      invariant products == Collect(lines, i)
    {
      CollectLast(lines, i);
      var line := Trim(lines[i]);
      if line == [] {
        assert RecordOf(lines[i], i) == None;
        continue;
      }
      var values := Split(line, ',');
      assert ValuesOf(lines[i]) == values;
      if |values| >= MinValues {
        var product := Product(RecordId(values[0], i), Trim(values[1]), Trim(values[2]),
                               Trim(values[3]), Trim(values[4]), Trim(values[5]), Trim(values[6]));
        assert RecordOf(lines[i], i) == Some(product);
        products := products + [product];
      } else {
        assert RecordOf(lines[i], i) == None;
      }
    }
  }

  // ---------------------------------------------------------------- one line

  /** A field as `parseCSV` produces it: no comma inside and no whitespace at either end. */
  predicate IsCleanField(f: string) {
    ',' !in f && IsTrimmed(f)
  }

  predicate IsClean(p: Product) {
    && p.id != 0
    && IsCleanField(p.category) && IsCleanField(p.gender) && IsCleanField(p.size)
    && IsCleanField(p.url) && IsCleanField(p.status) && IsCleanField(p.notes)
  }

  /**
   * A line yields a product exactly when it holds at least six commas: blank
   * lines and lines with fewer than seven values yield nothing.
   */
  lemma RecordOfKept(line: string, i: nat)
    ensures RecordOf(line, i).Some? <==> Count(',', line) >= MinValues - 1
  {
    var trimmed := Trim(line);
    CountTrim(',', line);
    SplitCount(trimmed, ',');
  }

  /** Every field of a produced record is comma-free and trimmed, and its id is never 0. */
  lemma RecordOfClean(line: string, i: nat)
    requires i >= 1
    ensures RecordOf(line, i).Some? ==> IsClean(RecordOf(line, i).value)
  {
    var trimmed := Trim(line);
    if RecordOf(line, i).Some? {
      var values := Split(trimmed, ',');
      SplitPiecesLackSeparator(trimmed, ',');
      forall k | 1 <= k < MinValues
        ensures IsCleanField(Trim(values[k]))
      {
        TrimKeepsAbsent(',', values[k]);
        TrimIsTrimmed(values[k]);
      }
    }
  }

  lemma {:induction false} JoinStartsWith(parts: seq<string>, sep: char)
    requires |parts| >= 2
    ensures |Join(parts, sep)| > 0
    ensures Join(parts, sep)[0] == if parts[0] != [] then parts[0][0] else sep
  {
  }

  lemma {:induction false} JoinEndsWith(parts: seq<string>, sep: char)
    requires |parts| >= 2
    ensures |Join(parts, sep)| > 0
    ensures var j := Join(parts, sep); var l := parts[|parts| - 1];
      j[|j| - 1] == if l != [] then l[|l| - 1] else sep
  {
    var rest := parts[1..];
    var j, jr := Join(parts, sep), Join(rest, sep);
    assert j == parts[0] + [sep] + jr;
    assert rest[|rest| - 1] == parts[|parts| - 1];
    if |parts| > 2 {
      JoinEndsWith(rest, sep);
    } else {
      assert jr == rest[0];
    }
    if jr != [] {
      assert j[|j| - 1] == jr[|jr| - 1];
    }
  }

  /** Trimmed fields joined by commas form a trimmed line. */
  lemma JoinOfTrimmed(fields: seq<string>)
    requires |fields| >= 2
    requires forall k :: 0 <= k < |fields| ==> IsTrimmed(fields[k])
    ensures IsTrimmed(Join(fields, ','))
  {
    JoinStartsWith(fields, ',');
    JoinEndsWith(fields, ',');
  }

  /** Trim removes exactly the trailing whitespace of a line written from clean fields. */
  lemma TrimOfRow(fields: seq<string>, pad: string)
    requires |fields| >= 2
    requires forall k :: 0 <= k < |fields| ==> IsTrimmed(fields[k])
    requires AllWhitespace(pad)
    ensures Trim(Join(fields, ',') + pad) == Join(fields, ',')
  {
    JoinOfTrimmed(fields);
    TrimTrailing(Join(fields, ','), pad);
  }

  lemma ValuesOfSplit(raw: string, line: string, values: seq<string>)
    requires Trim(raw) == line && line != [] && Split(line, ',') == values
    ensures ValuesOf(raw) == values
  {
  }

  /** Splitting a line written from clean fields, with trailing whitespace, gives the fields back. */
  lemma ValuesOfRow(fields: seq<string>, pad: string)
    requires |fields| >= 2
    requires forall k :: 0 <= k < |fields| ==> IsCleanField(fields[k])
    requires AllWhitespace(pad)
    ensures ValuesOf(Join(fields, ',') + pad) == fields
  {
    var line := Join(fields, ',');
    TrimOfRow(fields, pad);
    JoinStartsWith(fields, ',');
    SplitJoin(fields, ',');
    ValuesOfSplit(line + pad, line, fields);
  }

  /** Trimmed values are taken as they are. */
  lemma FromCleanValues(fields: seq<string>, i: nat)
    requires |fields| >= MinValues
    requires forall k :: 0 <= k < |fields| ==> IsCleanField(fields[k])
    ensures FromValues(fields, i)
      == Some(Product(RecordId(fields[0], i), fields[1], fields[2], fields[3], fields[4], fields[5], fields[6]))
  {
    TrimOfTrimmed(fields[1]);
    TrimOfTrimmed(fields[2]);
    TrimOfTrimmed(fields[3]);
    TrimOfTrimmed(fields[4]);
    TrimOfTrimmed(fields[5]);
    TrimOfTrimmed(fields[6]);
  }

  /**
   * Reading back a line written from clean fields (followed by any trailing
   * whitespace such as a carriage return) gives a product with exactly those
   * fields at positions 1 to 6; values after the seventh are ignored.
   */
  lemma RecordOfRow(fields: seq<string>, pad: string, i: nat)
    requires |fields| >= MinValues
    requires forall k :: 0 <= k < |fields| ==> IsCleanField(fields[k])
    requires AllWhitespace(pad)
    ensures RecordOf(Join(fields, ',') + pad, i)
      == Some(Product(RecordId(fields[0], i), fields[1], fields[2], fields[3], fields[4], fields[5], fields[6]))
  {
    ValuesOfRow(fields, pad);
    FromCleanValues(fields, i);
  }

  // ---------------------------------------------------------------- the whole text

  /** Which lines yield a record. */
  function KeptLines(lines: seq<string>): seq<bool>
  {
    seq(|lines|, i requires 0 <= i < |lines| => RecordOf(lines[i], i).Some?)
  }

  /** The indices, from 1 up to k-1, of the lines marked in `kept`, in increasing order. */
  function Origins(kept: seq<bool>, k: nat): (o: seq<nat>)
    requires k <= |kept|
    ensures forall j :: 0 <= j < |o| ==> 1 <= o[j] < k && kept[o[j]]
    ensures forall j1, j2 :: 0 <= j1 < j2 < |o| ==> o[j1] < o[j2]
    ensures forall i :: 1 <= i < k && kept[i] ==> i in o
  {
    if k <= 1 then []
    else Origins(kept, k - 1) + (if kept[k - 1] then [k - 1] else [])
  }

  /** Entry `j` of `ps` is the record that line `o[j]` of `lines` produces. */
  predicate Yields(lines: seq<string>, o: seq<nat>, ps: seq<Product>) {
    && |ps| == |o|
    && forall j :: 0 <= j < |o| ==> o[j] < |lines| && RecordOf(lines[o[j]], o[j]) == Some(ps[j])
  }

  lemma YieldsAppend(lines: seq<string>, o1: seq<nat>, ps1: seq<Product>, o2: seq<nat>, ps2: seq<Product>)
    requires Yields(lines, o1, ps1) && Yields(lines, o2, ps2)
    ensures Yields(lines, o1 + o2, ps1 + ps2)
  {
    forall j | 0 <= j < |o1 + o2|
      ensures (o1 + o2)[j] < |lines| && RecordOf(lines[(o1 + o2)[j]], (o1 + o2)[j]) == Some((ps1 + ps2)[j])
    {
      if j < |o1| {
        assert (o1 + o2)[j] == o1[j] && (ps1 + ps2)[j] == ps1[j];
      } else {
        assert (o1 + o2)[j] == o2[j - |o1|] && (ps1 + ps2)[j] == ps2[j - |ps1|];
      }
    }
  }

  /** Record j of the loop's output is the one that line Origins[j] produces. */
  lemma {:induction false} CollectFromOrigins(lines: seq<string>, k: nat)
    requires k <= |lines|
    ensures Yields(lines, Origins(KeptLines(lines), k), Collect(lines, k))
  {
    if k > 1 {
      var kept, r := KeptLines(lines), RecordOf(lines[k - 1], k - 1);
      CollectFromOrigins(lines, k - 1);
      var o2: seq<nat> := if kept[k - 1] then [k - 1] else [];
      assert kept[k - 1] == r.Some?;
      assert Yields(lines, o2, AsSeq(r));
      YieldsAppend(lines, Origins(kept, k - 1), Collect(lines, k - 1), o2, AsSeq(r));
    }
  }

  /**
   * Records come out in line order, one per kept line and none for line 0:
   * `Parsed(text)[j]` is the record of line `o[j]`, the `o[j]` strictly
   * increase, and every line after the header that yields a record is among them.
   */
  lemma ParsedInLineOrder(text: string)
    ensures var lines := Split(text, '\n'); var o := Origins(KeptLines(lines), |lines|);
      && |Parsed(text)| == |o|
      && (forall j :: 0 <= j < |o| ==> 1 <= o[j] < |lines| && RecordOf(lines[o[j]], o[j]) == Some(Parsed(text)[j]))
      && (forall j1, j2 :: 0 <= j1 < j2 < |o| ==> o[j1] < o[j2])
      && (forall i :: 1 <= i < |lines| && RecordOf(lines[i], i).Some? ==> i in o)
  {
    var lines := Split(text, '\n');
    var kept := KeptLines(lines);
    CollectFromOrigins(lines, |lines|);
    forall i | 1 <= i < |lines| && RecordOf(lines[i], i).Some?
      ensures i in Origins(kept, |lines|)
    {
      assert kept[i];
    }
  }

  lemma {:induction false} CollectLength(lines: seq<string>, k: nat)
    requires 1 <= k <= |lines|
    ensures |Collect(lines, k)| <= k - 1
  {
    if k > 1 {
      CollectLength(lines, k - 1);
    }
  }

  /** There are at most as many records as line feeds: the header never yields one. */
  lemma ParsedCount(text: string)
    ensures |Parsed(text)| <= Count('\n', text)
  {
    var lines := Split(text, '\n');
    SplitCount(text, '\n');
    CollectLength(lines, |lines|);
  }

  /** A text without a line feed, the empty text included, is only a header. */
  lemma ParsedHeaderOnly(text: string)
    requires '\n' !in text
    ensures Parsed(text) == []
  {
    SplitWithoutSeparator(text, '\n');
  }

  /** The loop's output depends on lines 1 .. k-1 only. */
  lemma {:induction false} CollectAgree(l1: seq<string>, l2: seq<string>, k: nat)
    requires k <= |l1| && k <= |l2|
    requires forall j :: 1 <= j < k ==> l1[j] == l2[j]
    ensures Collect(l1, k) == Collect(l2, k)
  {
    if k > 1 {
      CollectAgree(l1, l2, k - 1);
    }
  }

  /** The header line never influences any record. */
  lemma HeaderIgnored(h1: string, h2: string, body: string)
    requires '\n' !in h1 && '\n' !in h2
    ensures Parsed(h1 + "\n" + body) == Parsed(h2 + "\n" + body)
  {
    SplitAfterPiece(h1, '\n', body);
    SplitAfterPiece(h2, '\n', body);
    var l1 := Split(h1 + "\n" + body, '\n');
    var l2 := Split(h2 + "\n" + body, '\n');
    CollectAgree(l1, l2, |l1|);
  }

  /** A line added at the end does not change what the earlier lines yield. */
  lemma CollectExtend(lines: seq<string>, line: string)
    ensures Collect(lines + [line], |lines|) == Collect(lines, |lines|)
  {
    CollectAgree(lines, lines + [line], |lines|);
  }

  lemma CollectLast(lines: seq<string>, k: nat)
    requires 1 <= k < |lines|
    ensures Collect(lines, k + 1) == Collect(lines, k) + AsSeq(RecordOf(lines[k], k))
  {
  }

  /** Collecting one more line appends that line's record, if any. */
  lemma CollectSnoc(lines: seq<string>, line: string)
    requires |lines| >= 1
    ensures Collect(lines + [line], |lines| + 1) == Collect(lines, |lines|) + AsSeq(RecordOf(line, |lines|))
  {
    assert (lines + [line])[|lines|] == line;
    CollectLast(lines + [line], |lines|);
    CollectExtend(lines, line);
  }

  /** Every record `parseCSV` returns has clean fields and a non-zero id. */
  lemma {:induction false} CollectClean(lines: seq<string>, k: nat)
    requires k <= |lines|
    ensures forall p :: p in Collect(lines, k) ==> IsClean(p)
  {
    if k > 1 {
      CollectClean(lines, k - 1);
      RecordOfClean(lines[k - 1], k - 1);
    }
  }

  lemma ParsedClean(text: string)
    ensures forall p :: p in Parsed(text) ==> IsClean(p)
  {
    var lines := Split(text, '\n');
    CollectClean(lines, |lines|);
  }

  // ---------------------------------------------------------------- a written feed

  /** A row of the sheet that can be written as one line and read back unchanged. */
  predicate IsWellFormedRow(row: seq<string>) {
    |row| >= MinValues && forall k :: 0 <= k < |row| ==> IsCleanField(row[k]) && '\n' !in row[k]
  }

  /** The lines of a feed: the header, then one line per row with its fields joined by commas. */
  function FeedLines(header: string, rows: seq<seq<string>>): seq<string>
  {
    [header] + seq(|rows|, j requires 0 <= j < |rows| => Join(rows[j], ','))
  }

  /** The feed text for a header line followed by the given rows, one line per row. */
  function FeedText(header: string, rows: seq<seq<string>>): (text: string)
  {
    Join(FeedLines(header, rows), '\n')
  }

  /** The product a well-formed row on line `i` reads back as. */
  function RowProduct(row: seq<string>, i: nat): (p: Product)
    requires |row| >= MinValues
  {
    Product(RecordId(row[0], i), row[1], row[2], row[3], row[4], row[5], row[6])
  }

  /** The products of the rows of `FeedText(header, rows)`: row j, on line j + 1, gives product j. */
  function RowProducts(rows: seq<seq<string>>): (ps: seq<Product>)
    requires forall j :: 0 <= j < |rows| ==> IsWellFormedRow(rows[j])
  {
    if rows == [] then []
    else
      assert IsWellFormedRow(rows[|rows| - 1]);
      RowProducts(rows[..|rows| - 1]) + [RowProduct(rows[|rows| - 1], |rows|)]
  }

  lemma {:induction false} CountJoin(c: char, parts: seq<string>, sep: char)
    requires c != sep
    requires forall k :: 0 <= k < |parts| ==> c !in parts[k]
    ensures Count(c, Join(parts, sep)) == 0
  {
    if |parts| == 1 {
      CountAbsent(c, parts[0]);
    } else if |parts| > 1 {
      CountJoin(c, parts[1..], sep);
      CountAppend(c, parts[0] + [sep], Join(parts[1..], sep));
      CountAppend(c, parts[0], [sep]);
      CountAbsent(c, parts[0]);
    }
  }

  lemma {:induction false} CountAbsent(c: char, s: string)
    requires c !in s
    ensures Count(c, s) == 0
  {
    if s != [] {
      CountAbsent(c, s[1..]);
    }
  }

  /** No line of a feed with a one-line header and well-formed rows holds a line feed. */
  lemma FeedLinesSingle(header: string, rows: seq<seq<string>>)
    requires '\n' !in header
    requires forall j :: 0 <= j < |rows| ==> IsWellFormedRow(rows[j])
    ensures forall k :: 0 <= k < |rows| + 1 ==> '\n' !in FeedLines(header, rows)[k]
  {
    var lines := FeedLines(header, rows);
    forall k | 0 < k < |lines|
      ensures '\n' !in lines[k]
    {
      assert IsWellFormedRow(rows[k - 1]);
      CountJoin('\n', rows[k - 1], ',');
      CountZero('\n', lines[k]);
    }
  }

  /** Line `k` of a well-formed feed reads back as the product of row `k - 1`, with index `k`. */
  lemma FeedLineRecord(header: string, rows: seq<seq<string>>, k: nat)
    requires 1 <= k <= |rows| && IsWellFormedRow(rows[k - 1])
    ensures RecordOf(FeedLines(header, rows)[k], k) == Some(RowProduct(rows[k - 1], k))
  {
    assert FeedLines(header, rows)[k] == Join(rows[k - 1], ',') + [];
    RecordOfRow(rows[k - 1], [], k);
  }

  lemma RowProductsSnoc(rows: seq<seq<string>>, k: nat)
    requires 1 <= k <= |rows|
    requires forall j :: 0 <= j < |rows| ==> IsWellFormedRow(rows[j])
    ensures RowProducts(rows[..k]) == RowProducts(rows[..k - 1]) + [RowProduct(rows[k - 1], k)]
  {
    assert rows[..k][..k - 1] == rows[..k - 1];
  }

  /** The lines of a well-formed feed yield the products of its rows, in row order. */
  lemma {:induction false} CollectRows(header: string, rows: seq<seq<string>>, k: nat)
    requires k <= |rows|
    requires forall j :: 0 <= j < |rows| ==> IsWellFormedRow(rows[j])
    ensures Collect(FeedLines(header, rows), k + 1) == RowProducts(rows[..k])
  {
    if k > 0 {
      CollectRows(header, rows, k - 1);
      CollectLast(FeedLines(header, rows), k);
      FeedLineRecord(header, rows, k);
      RowProductsSnoc(rows, k);
    }
  }

  lemma CollectAllRows(header: string, rows: seq<seq<string>>)
    requires forall j :: 0 <= j < |rows| ==> IsWellFormedRow(rows[j])
    ensures Collect(FeedLines(header, rows), |rows| + 1) == RowProducts(rows)
  {
    CollectRows(header, rows, |rows|);
    assert rows[..|rows|] == rows;
  }

  /** A feed text splits back into its lines. */
  lemma FeedTextLines(header: string, rows: seq<seq<string>>)
    requires '\n' !in header
    requires forall j :: 0 <= j < |rows| ==> IsWellFormedRow(rows[j])
    ensures Split(FeedText(header, rows), '\n') == FeedLines(header, rows)
  {
    FeedLinesSingle(header, rows);
    SplitJoin(FeedLines(header, rows), '\n');
  }

  /** A text that splits into `lines` parses to what those lines yield. */
  lemma ParsedOfLines(text: string, lines: seq<string>)
    requires Split(text, '\n') == lines
    ensures Parsed(text) == Collect(lines, |lines|)
  {
  }

  /**
   * A header and N well-formed rows read back as exactly N products, in row
   * order, with the rows' fields; row j sits on line j + 1.
   */
  lemma FeedRoundTrip(header: string, rows: seq<seq<string>>)
    requires '\n' !in header
    requires forall j :: 0 <= j < |rows| ==> IsWellFormedRow(rows[j])
    ensures Count('\n', FeedText(header, rows)) == |rows|
    ensures Parsed(FeedText(header, rows)) == RowProducts(rows)
  {
    var lines, text := FeedLines(header, rows), FeedText(header, rows);
    FeedTextLines(header, rows);
    SplitCount(text, '\n');
    ParsedOfLines(text, lines);
    CollectAllRows(header, rows);
  }
}
