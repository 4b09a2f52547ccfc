/**
 * `get_max_field_length` and `print_table`: one column width for the whole
 * table, and the text lines it prints (without the colour codes).
 */
module Table {
  import Text
  import opened Reports

  /**
   * An element of the list `get_max_field_length` scans: a scalar, measured
   * itself, or a row, whose elements are measured one level down.
   */
  datatype Entry = Scalar(cell: Cell) | Nested(cells: seq<Cell>)

  /** `str(word)` for every word of a row. */
  function Texts(cells: Row): seq<string> {
    seq(|cells|, i requires 0 <= i < |cells| => Show(cells[i]))
  }

  /** The printed forms of the values of an entry that get measured. */
  function FieldsOf(e: Entry): seq<string> {
    match e
    case Scalar(c) => [Show(c)]
    case Nested(cells) => Texts(cells)
  }

  /** The largest of `ns`, or 0 when there are none. */
  function Max(ns: seq<nat>): nat {
    if ns == [] then 0
    else
      var m := Max(ns[..|ns| - 1]);
      var n := ns[|ns| - 1];
      if n > m then n else m
  }

  /** The length of every text. */
  function Lengths(texts: seq<string>): seq<nat> {
    seq(|texts|, i requires 0 <= i < |texts| => |texts[i]|)
  }

  /** The longest of `texts`, or 0 when there are none. */
  function MaxLen(texts: seq<string>): nat {
    Max(Lengths(texts))
  }

  /** The longest field of every entry, one level deep. */
  function Widths(entries: seq<Entry>): seq<nat> {
    seq(|entries|, i requires 0 <= i < |entries| => MaxLen(FieldsOf(entries[i])))
  }

  /** The value of `get_max_field_length(table)`: a maximum over the entries, and within rows over their fields. */
  function MaxFieldLength(entries: seq<Entry>): nat {
    Max(Widths(entries))
  }

  /** `Max` is the maximum: no element is larger, and some element equals it unless it is 0. */
  lemma {:induction false} MaxIsMax(ns: seq<nat>)
    ensures forall k :: 0 <= k < |ns| ==> ns[k] <= Max(ns)
    ensures Max(ns) == 0 || exists k :: 0 <= k < |ns| && ns[k] == Max(ns)
    decreases |ns|
  {
    if ns != [] {
      var init := ns[..|ns| - 1];
      MaxIsMax(init);
      assert forall k :: 0 <= k < |init| ==> init[k] == ns[k];
    }
  }

  /** The maximum of one more element: the larger of the maximum so far and that element. */
  lemma MaxSnoc(ns: seq<nat>, n: nat)
    ensures Max(ns + [n]) == if n > Max(ns) then n else Max(ns)
  {
    var all := ns + [n];
    assert all[..|all| - 1] == ns && all[|all| - 1] == n;
  }

  /** `MaxLen` is the maximum: no text is longer, and some text is that long unless it is 0. */
  lemma MaxLenIsMax(texts: seq<string>)
    ensures forall k :: 0 <= k < |texts| ==> |texts[k]| <= MaxLen(texts)
    ensures MaxLen(texts) == 0 || exists k :: 0 <= k < |texts| && |texts[k]| == MaxLen(texts)
  {
    var ls := Lengths(texts);
    MaxIsMax(ls);
    assert forall k :: 0 <= k < |texts| ==> ls[k] == |texts[k]|;
    if MaxLen(texts) != 0 {
      var k :| 0 <= k < |ls| && ls[k] == Max(ls);
      assert |texts[k]| == MaxLen(texts);
    }
  }

  /** No entry's own longest field is longer than `get_max_field_length(table)`. */
  lemma MaxFieldLengthCovers(entries: seq<Entry>, i: nat)
    requires i < |entries|
    ensures MaxLen(FieldsOf(entries[i])) <= MaxFieldLength(entries)
  {
    var ws := Widths(entries);
    MaxIsMax(ws);
    assert ws[i] == MaxLen(FieldsOf(entries[i]));
  }

  /** No field of any entry, one level deep, is longer than `get_max_field_length(table)`. */
  lemma MaxFieldLengthBounds(entries: seq<Entry>)
    ensures forall i, k :: 0 <= i < |entries| && 0 <= k < |FieldsOf(entries[i])| ==>
      |FieldsOf(entries[i])[k]| <= MaxFieldLength(entries)
  {
    forall i, k | 0 <= i < |entries| && 0 <= k < |FieldsOf(entries[i])|
      ensures |FieldsOf(entries[i])[k]| <= MaxFieldLength(entries)
    {
      MaxFieldLengthCovers(entries, i);
      MaxLenIsMax(FieldsOf(entries[i]));
    }
  }

  /** The maximum over one more entry: the larger of the maximum so far and that entry's own. */
  lemma MaxFieldLengthSnoc(entries: seq<Entry>, e: Entry)
    ensures var m, n := MaxFieldLength(entries), MaxLen(FieldsOf(e));
      MaxFieldLength(entries + [e]) == if n > m then n else m
  {
    assert Widths(entries + [e]) == Widths(entries) + [MaxLen(FieldsOf(e))];
    MaxSnoc(Widths(entries), MaxLen(FieldsOf(e)));
  }

  /** The longest of one more text: the larger of the longest so far and that text's length. */
  lemma MaxLenSnoc(texts: seq<string>, t: string)
    ensures MaxLen(texts + [t]) == if |t| > MaxLen(texts) then |t| else MaxLen(texts)
  {
    assert Lengths(texts + [t]) == Lengths(texts) + [|t|];
    MaxSnoc(Lengths(texts), |t|);
  }

  /**
   * `get_max_field_length(table)` is 0 for an empty table, and otherwise,
   * unless it is 0, the length of some field one level deep.
   */
  lemma MaxFieldLengthAttained(entries: seq<Entry>)
    ensures MaxFieldLength(entries) == 0
      || exists i, k :: (0 <= i < |entries| && 0 <= k < |FieldsOf(entries[i])|
                         && |FieldsOf(entries[i])[k]| == MaxFieldLength(entries))
  {
    var ws := Widths(entries);
    MaxIsMax(ws);
    if Max(ws) != 0 {
      var i :| 0 <= i < |ws| && ws[i] == Max(ws);
      var fields := FieldsOf(entries[i]);
      assert MaxLen(fields) == MaxFieldLength(entries);
      MaxLenIsMax(fields);
      var k :| 0 <= k < |fields| && |fields[k]| == MaxLen(fields);
    }
  }

  /** `get_max_field_length`: a running maximum over the fields, one level deep. */
  method GetMaxFieldLength(table: seq<Entry>) returns (maxLength: nat)
    ensures maxLength == MaxFieldLength(table)
  {
    maxLength := 0;
    for x := 0 to |table|
      invariant maxLength == MaxFieldLength(table[..x])
    {
      maxLength := RaiseToLongest(maxLength, FieldsOf(table[x]));
      MaxFieldLengthSnoc(table[..x], table[x]);
      assert table[..x + 1] == table[..x] + [table[x]];
    }
    assert table[..|table|] == table;
  }

  /** The inner loop of `get_max_field_length`: raise the running maximum to the longest field. */
  method RaiseToLongest(maxLength: nat, fields: seq<string>) returns (raised: nat)
    ensures raised == if MaxLen(fields) > maxLength then MaxLen(fields) else maxLength
  {
    raised := maxLength;
    assert fields[..0] == [];
    for i := 0 to |fields|
      invariant raised == if MaxLen(fields[..i]) > maxLength then MaxLen(fields[..i]) else maxLength
    {
      MaxLenSnoc(fields[..i], fields[i]);
      assert fields[..i + 1] == fields[..i] + [fields[i]];
      var length := |fields[i]|;
      if length > raised {
        raised := length;
      }
    }
    assert fields[..|fields|] == fields;
  }

  /** The headers as the scalars they are scanned as. */
  function HeaderEntries(headers: seq<string>): (es: seq<Entry>)
    ensures |es| == |headers| && forall i :: 0 <= i < |headers| ==> es[i] == Scalar(StrCell(headers[i]))
  {
    if headers == [] then [] else [Scalar(StrCell(headers[0]))] + HeaderEntries(headers[1..])
  }

  /** The table rows as the lists they are scanned as. */
  function RowEntries(table: seq<Row>): (es: seq<Entry>)
    ensures |es| == |table| && forall i :: 0 <= i < |table| ==> es[i] == Nested(table[i])
  {
    if table == [] then [] else [Nested(table[0])] + RowEntries(table[1..])
  }

  /** The one width every column of the table gets: two more than the longest header or cell. */
  function ColumnWidth(headers: seq<string>, table: seq<Row>): nat {
    var headerMax := MaxFieldLength(HeaderEntries(headers)) + 2;
    var tableMax := MaxFieldLength(RowEntries(table)) + 2;
    if headerMax > tableMax then headerMax else tableMax
  }

  /** The column width is at least two more than every header and every word of the table. */
  lemma ColumnWidthCovers(headers: seq<string>, table: seq<Row>)
    ensures var w := ColumnWidth(headers, table);
      && w >= 2
      && (forall i :: 0 <= i < |headers| ==> |headers[i]| + 2 <= w)
      && (forall i, k :: 0 <= i < |table| && 0 <= k < |table[i]| ==> |Texts(table[i])[k]| + 2 <= w)
  {
    var hs := HeaderEntries(headers);
    var rs := RowEntries(table);
    MaxFieldLengthBounds(hs);
    MaxFieldLengthBounds(rs);
    forall i | 0 <= i < |table| ensures FieldsOf(rs[i]) == Texts(table[i]) { }
    forall i | 0 <= i < |headers| ensures |headers[i]| <= MaxFieldLength(hs) {
      assert FieldsOf(hs[i])[0] == headers[i];
    }
  }

  /** The column width is exactly two more than the longest header or word (2 when all are empty). */
  lemma ColumnWidthAttained(headers: seq<string>, table: seq<Row>)
    ensures var w := ColumnWidth(headers, table);
      || w == 2
      || (exists i :: 0 <= i < |headers| && |headers[i]| + 2 == w)
      || (exists i, k :: 0 <= i < |table| && 0 <= k < |table[i]| && |Texts(table[i])[k]| + 2 == w)
  {
    var hs := HeaderEntries(headers);
    var rs := RowEntries(table);
    var w := ColumnWidth(headers, table);
    if MaxFieldLength(hs) > MaxFieldLength(rs) {
      MaxFieldLengthAttained(hs);
      var i, k :| 0 <= i < |hs| && 0 <= k < |FieldsOf(hs[i])| && |FieldsOf(hs[i])[k]| == MaxFieldLength(hs);
      assert FieldsOf(hs[i])[k] == headers[i];
      assert |headers[i]| + 2 == w;
    } else if MaxFieldLength(rs) != 0 {
      MaxFieldLengthAttained(rs);
      var i, k :| 0 <= i < |rs| && 0 <= k < |FieldsOf(rs[i])| && |FieldsOf(rs[i])[k]| == MaxFieldLength(rs);
      assert FieldsOf(rs[i]) == Texts(table[i]);
      assert |Texts(table[i])[k]| + 2 == w;
    }
  }

  /** Every word left-justified to `width`. */
  function Padded(texts: seq<string>, width: int): seq<string> {
    seq(|texts|, i requires 0 <= i < |texts| => Text.LJust(texts[i], width))
  }

  /** `"".join(blocks)`. */
  function Concat(blocks: seq<string>): string {
    if blocks == [] then []
    else Concat(blocks[..|blocks| - 1]) + blocks[|blocks| - 1]
  }

  /** One printed line: every word left-justified to `width`, concatenated. */
  function RenderLine(texts: seq<string>, width: int): string {
    Concat(Padded(texts, width))
  }

  /** The printed lines of a table: the header line, then one line per row. */
  function RenderTable(headers: seq<string>, table: seq<Row>): (lines: seq<string>)
    ensures |lines| == |table| + 1
    ensures lines[0] == RenderLine(headers, ColumnWidth(headers, table))
    ensures forall i :: 0 <= i < |table| ==>
      lines[i + 1] == RenderLine(Texts(table[i]), ColumnWidth(headers, table))
  {
    var w := ColumnWidth(headers, table);
    var rows := RenderRows(table, w);
    assert forall i :: 0 <= i < |table| ==> ([RenderLine(headers, w)] + rows)[i + 1] == rows[i];
    [RenderLine(headers, w)] + rows
  }

  function RenderRows(table: seq<Row>, width: int): (lines: seq<string>)
    ensures |lines| == |table|
    ensures forall i :: 0 <= i < |table| ==> lines[i] == RenderLine(Texts(table[i]), width)
  {
    if table == [] then [] else [RenderLine(Texts(table[0]), width)] + RenderRows(table[1..], width)
  }

  /** `print_table`: picks the column width, then renders the header and every row with it. */
  method PrintTable(headers: seq<string>, table: seq<Row>) returns (lines: seq<string>)
    ensures lines == RenderTable(headers, table)
  {
    var headerMax: int := GetMaxFieldLength(HeaderEntries(headers));
    headerMax := headerMax + 2;
    var tableMax: int := GetMaxFieldLength(RowEntries(table));
    tableMax := tableMax + 2;
    var columnWidth: int;
    if headerMax > tableMax {
      columnWidth := headerMax;
    } else {
      columnWidth := tableMax;
    }
    assert columnWidth == ColumnWidth(headers, table);
    var body := PrintRows(table, columnWidth);
    lines := [RenderLine(headers, columnWidth)] + body;
  }

  /** The loop of `print_table` over the rows: one rendered line per row, in order. */
  method PrintRows(table: seq<Row>, columnWidth: int) returns (body: seq<string>)
    ensures body == RenderRows(table, columnWidth)
  {
    body := [];
    for i := 0 to |table|
      invariant |body| == i
      invariant forall j :: 0 <= j < i ==> body[j] == RenderLine(Texts(table[j]), columnWidth)
    {
      body := body + [RenderLine(Texts(table[i]), columnWidth)];
    }
  }

  /** Where block `k` of a line of blocks of width `w` starts: `k × w`, counted out by additions. */
  function Offset(k: nat, w: nat): (off: nat)
  {
    if k == 0 then 0 else Offset(k - 1, w) + w
  }

  lemma {:induction false} OffsetIsProduct(k: nat, w: nat)
    ensures Offset(k, w) == k * w
  {
    if k > 0 {
      OffsetIsProduct(k - 1, w);
      assert k * w == (k - 1) * w + w;
    }
  }

  lemma {:induction false} OffsetMono(k: nat, n: nat, w: nat)
    requires k < n
    ensures Offset(k, w) + w <= Offset(n, w)
    decreases n - k
  {
    if k + 1 < n {
      OffsetMono(k + 1, n, w);
    }
  }

  lemma SliceOfPrefix(a: string, b: string, lo: int, hi: int)
    requires 0 <= lo <= hi <= |a|
    ensures (a + b)[lo..hi] == a[lo..hi]
  {
  }

  lemma SliceOfSuffix(a: string, b: string)
    ensures (a + b)[|a|..|a| + |b|] == b
  {
  }

  /** Blocks of `width` characters each, joined, are `|blocks| × width` long. */
  lemma {:induction false} ConcatLength(blocks: seq<string>, width: nat)
    requires forall k :: 0 <= k < |blocks| ==> |blocks[k]| == width
    ensures |Concat(blocks)| == Offset(|blocks|, width)
    decreases |blocks|
  {
    if blocks != [] {
      var n := |blocks| - 1;
      var init := blocks[..n];
      assert forall k :: 0 <= k < n ==> init[k] == blocks[k];
      ConcatLength(init, width);
    }
  }

  /** In blocks of `width` characters joined, the k-th run of `width` characters is block k. */
  lemma {:induction false} ConcatBlock(blocks: seq<string>, width: nat, k: nat)
    requires forall k :: 0 <= k < |blocks| ==> |blocks[k]| == width
    requires k < |blocks|
    ensures Offset(k, width) + width <= |Concat(blocks)|
    ensures Concat(blocks)[Offset(k, width)..Offset(k, width) + width] == blocks[k]
    decreases |blocks|
  {
    var n := |blocks| - 1;
    var init := blocks[..n];
    assert forall j :: 0 <= j < n ==> init[j] == blocks[j];
    ConcatLength(init, width);
    var prefix := Concat(init);
    var a := Offset(k, width);
    if k < n {
      ConcatBlock(init, width, k);
      OffsetMono(k, n, width);
      BlockOfConcat(prefix, blocks[n], a, width, blocks[k]);
    } else {
      BlockOfConcat(prefix, blocks[n], a, width, blocks[k]);
    }
  }

  /** A line whose width is at least every word's length is `|texts| × width` long. */
  lemma LineLength(texts: seq<string>, width: nat)
    requires forall k :: 0 <= k < |texts| ==> |texts[k]| <= width
    ensures |RenderLine(texts, width)| == Offset(|texts|, width)
  {
    ConcatLength(Padded(texts, width), width);
  }

  /**
   * In such a line, the k-th block of `width` characters is word k
   * left-justified to `width`.
   */
  lemma LineBlock(texts: seq<string>, width: nat, k: nat)
    requires forall k :: 0 <= k < |texts| ==> |texts[k]| <= width
    requires k < |texts|
    ensures Offset(k, width) + width <= |RenderLine(texts, width)|
    ensures RenderLine(texts, width)[Offset(k, width)..Offset(k, width) + width]
         == Text.LJust(texts[k], width)
  {
    ConcatBlock(Padded(texts, width), width, k);
  }

  /**
   * A block of `width` characters at `a` in `prefix + last` is the block of
   * `prefix` when it fits there, or `last` when it starts where `prefix` ends.
   */
  lemma BlockOfConcat(prefix: string, last: string, a: nat, width: nat, word: string)
    requires (a + width <= |prefix| && prefix[a..a + width] == word)
          || (a == |prefix| && |last| == width && last == word)
    ensures a + width <= |prefix + last|
    ensures (prefix + last)[a..a + width] == word
  {
    if a + width <= |prefix| && prefix[a..a + width] == word {
      SliceOfPrefix(prefix, last, a, a + width);
    } else {
      SliceOfSuffix(prefix, last);
    }
  }

  /** Word k of a line fills block k: its text, then spaces up to the block's end. */
  lemma BlockLayout(texts: seq<string>, width: nat, k: nat)
    requires forall k :: 0 <= k < |texts| ==> |texts[k]| <= width
    requires k < |texts|
    ensures var line, off := RenderLine(texts, width), Offset(k, width);
      && off + width <= |line|
      && line[off..off + |texts[k]|] == texts[k]
      && forall p :: off + |texts[k]| <= p < off + width ==> line[p] == ' '
  {
    var line, off := RenderLine(texts, width), Offset(k, width);
    LineBlock(texts, width, k);
    BlockContents(line, off, width, Text.LJust(texts[k], width), texts[k]);
  }

  /**
   * A block of `line` that holds `t` padded with spaces has `t` at its
   * start and spaces after it.
   */
  lemma BlockContents(line: string, off: nat, width: nat, block: string, t: string)
    requires off + width <= |line| && line[off..off + width] == block
    requires |t| <= width && block[..|t|] == t
    requires forall i :: |t| <= i < |block| ==> block[i] == ' '
    ensures line[off..off + |t|] == t
    ensures forall p :: off + |t| <= p < off + width ==> line[p] == ' '
  {
    SliceOfSlice(line, off, off + width, |t|);
  }

  /** Reading inside a slice is reading the sequence at the shifted index. */
  lemma SliceOfSlice(s: string, a: nat, b: nat, c: nat)
    requires a + c <= b <= |s|
    ensures s[a..b][..c] == s[a..a + c]
    ensures forall p :: a <= p < b ==> s[p] == s[a..b][p - a]
  {
  }

  /**
   * A line of words each at least two shorter than `width` is `width ×
   * (number of words)` long (`Offset` counts that product out), and word k
   * occupies block k: its text, then spaces up to the block's end, at least
   * two of them.
   */
  lemma LineLayout(texts: seq<string>, width: nat)
    requires forall k :: 0 <= k < |texts| ==> |texts[k]| + 2 <= width
    ensures var line := RenderLine(texts, width);
      && |line| == Offset(|texts|, width)
      && forall k :: 0 <= k < |texts| ==>
        && Offset(k, width) + width <= |line|
        && line[Offset(k, width)..Offset(k, width) + |texts[k]|] == texts[k]
        && (forall p :: Offset(k, width) + |texts[k]| <= p < Offset(k, width) + width ==> line[p] == ' ')
  {
    LineLength(texts, width);
    forall k | 0 <= k < |texts|
      ensures var line, off := RenderLine(texts, width), Offset(k, width);
        && off + width <= |line|
        && line[off..off + |texts[k]|] == texts[k]
        && forall p :: off + |texts[k]| <= p < off + width ==> line[p] == ' '
    {
      BlockLayout(texts, width, k);
    }
  }

  /**
   * Every printed line of a table, the header line (i = 0) and the row
   * lines, is laid out in blocks of the one column width: every word is at
   * least two shorter than the width, and word k fills block k as
   * `LineLayout` describes.
   */
  lemma TableLayout(headers: seq<string>, table: seq<Row>, i: nat)
    requires i <= |table|
    ensures var w, line := ColumnWidth(headers, table), RenderTable(headers, table)[i];
      var texts := if i == 0 then headers else Texts(table[i - 1]);
      && line == RenderLine(texts, w)
      && (forall k :: 0 <= k < |texts| ==> |texts[k]| + 2 <= w)
  {
    ColumnWidthCovers(headers, table);
  }

  /**
   * Every printed line, the header line (i = 0) and the row lines, is
   * exactly `column_width × (number of words)` characters long.
   */
  lemma TableLineLength(headers: seq<string>, table: seq<Row>, i: nat)
    requires i <= |table|
    ensures var texts := if i == 0 then headers else Texts(table[i - 1]);
      |RenderTable(headers, table)[i]| == ColumnWidth(headers, table) * |texts|
  {
    var w := ColumnWidth(headers, table);
    var texts := if i == 0 then headers else Texts(table[i - 1]);
    TableLayout(headers, table, i);
    LineLength(texts, w);
    OffsetIsProduct(|texts|, w);
  }
}
