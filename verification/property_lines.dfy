/**
 * The `.properties` text the console exports and imports
 * (`formatPropertyLines` and `parseInputFile` of `IndexController`): the
 * lines of a file, and the single-group document those lines are joined
 * into.
 *
 * An export is a header comment, an empty line, and per item an optional
 * `# comment` line followed by `name=value`. The import skips the header,
 * ignores `#` lines and lines without `=`, splits at the first `=`, and
 * attaches a `#` line to the item right after it.
 */
module PropertyLines {

  import opened Optional
  import opened JavaString
  import opened TextLines

  /** A property as shown and exported: name, value and the shadow-tree comment, if any. */
  datatype DisplayItem = DisplayItem(name: string, value: string, comment: Option<string>)

  /** The start of the export header; the import skips a first line that starts with it. */
  const ExportMarker: string := "# Export from zookeeper"

  function Header(root: string, version: string, group: string): (h: string)
    ensures StartsWith(h, ExportMarker)
  {
    ExportMarker + " configuration group: [" + root + "] - [" + version + "] - [" + group + "]."
  }

  /** `!Strings.isNullOrEmpty(item.getComment())`: the export writes a comment line. */
  predicate HasComment(item: DisplayItem) {
    item.comment.Some? && item.comment.value != ""
  }

  /** The number of items the export gives a comment line. */
  function CommentCount(items: seq<DisplayItem>): (n: nat)
    ensures n <= |items|
  {
    if |items| == 0 then 0
    else (if HasComment(items[0]) then 1 else 0) + CommentCount(items[1..])
  }

  /** The lines one item is exported as: its comment line, when it has a comment, then `name=value`. */
  function ItemLines(item: DisplayItem): (lines: seq<string>)
    ensures |lines| == if HasComment(item) then 2 else 1
    ensures HasComment(item) ==> lines[0] == "# " + item.comment.value
    ensures lines[|lines| - 1] == item.name + "=" + item.value
  {
    (if HasComment(item) then ["# " + item.comment.value] else []) + [item.name + "=" + item.value]
  }

  /** The exported lines of all items, in order, after the header and the empty line. */
  function Body(items: seq<DisplayItem>): (lines: seq<string>)
    ensures |lines| == |items| + CommentCount(items)
    ensures |items| > 0 ==> lines[|lines| - 1] == items[|items| - 1].name + "=" + items[|items| - 1].value
  {
    if |items| == 0 then [] else ItemLines(items[0]) + Body(items[1..])
  }

  /** The body of two runs of items is the body of the first followed by that of the second. */
  lemma {:induction false} BodyAppend(a: seq<DisplayItem>, b: seq<DisplayItem>)
    ensures Body(a + b) == Body(a) + Body(b)
    decreases |a|
  {
    if |a| == 0 {
      assert a + b == b;
    } else {
      var c := a + b;
      assert c[0] == a[0] && c[1..] == a[1..] + b;
      assert Body(c) == ItemLines(a[0]) + Body(a[1..] + b);
      BodyAppend(a[1..], b);
      LinesAssociate(ItemLines(a[0]), Body(a[1..]), Body(b));
    }
  }

  lemma LinesAssociate(x: seq<string>, y: seq<string>, z: seq<string>)
    ensures x + (y + z) == (x + y) + z
  {
  }

  /** No exported line of an item breaks in two when it is read back. */
  lemma {:induction false} BodyOnOneLine(items: seq<DisplayItem>)
    requires forall i | 0 <= i < |items| :: Exportable(items[i])
    ensures forall i | 0 <= i < |Body(items)| :: OnOneLine(Body(items)[i])
    decreases |items|
  {
    if |items| > 0 {
      var head := ItemLines(items[0]);
      var tail := Body(items[1..]);
      BodyOnOneLine(items[1..]);
      assert forall i | 0 <= i < |head| :: OnOneLine(head[i]);
      assert Body(items) == head + tail;
      forall i | 0 <= i < |head + tail| ensures OnOneLine((head + tail)[i]) {
        if i >= |head| {
          assert (head + tail)[i] == tail[i - |head|];
        }
      }
    }
  }

  /** `formatPropertyLines`: header, empty line, then each item's comment line and `name=value`. */
  function FormatPropertyLines(root: string, version: string, group: string, items: seq<DisplayItem>)
    : (lines: seq<string>)
    ensures |lines| == 2 + |items| + CommentCount(items)
    ensures lines[0] == Header(root, version, group) && lines[1] == ""
    ensures lines[2..] == Body(items)
  {
    [Header(root, version, group), ""] + Body(items)
  }

  /** The document a single-group export sends: its lines joined with `"\r\n"`. */
  function ExportText(root: string, version: string, group: string, items: seq<DisplayItem>): string {
    JoinLines(FormatPropertyLines(root, version, group, items))
  }

  /**
   * `Splitter.on('=').limit(2)` when it yields two parts: the text before
   * the first `=` and everything after it; `None` when the line has no `=`.
   */
  function SplitAtFirstEquals(line: string): (r: Option<(string, string)>)
    ensures r.None? <==> '=' !in line
    ensures r.Some? ==> line == r.value.0 + "=" + r.value.1 && '=' !in r.value.0
  {
    match IndexOf(line, '=')
    case None => None
    case Some(i) =>
      assert line == line[..i] + "=" + line[i + 1..];
      Some((line[..i], line[i + 1..]))
  }

  /**
   * The comment a previous line supplies: a line starting with `#`, with
   * all leading `#` and surrounding blanks removed.
   */
  function CommentOf(previous: Option<string>): (c: Option<string>)
    ensures c.Some? <==> previous.Some? && StartsWith(previous.value, "#")
  {
    if previous.Some? && StartsWith(previous.value, "#") then
      Some(Trim(TrimLeadingCharacter(previous.value, '#')))
    else
      None
  }

  /** The item one line yields, given the line before it (`null` at the start). */
  function ParseLine(line: string, previous: Option<string>): (r: Option<DisplayItem>)
    ensures r.Some? <==> !StartsWith(line, "#") && '=' in line
    ensures r.Some? ==> IsTrimmed(r.value.name) && IsTrimmed(r.value.value)
    ensures r.Some? ==> r.value.comment == CommentOf(previous)
  {
    if StartsWith(line, "#") then None
    else
      match SplitAtFirstEquals(line)
      case None => None
      case Some((key, value)) => Some(DisplayItem(Trim(key), Trim(value), CommentOf(previous)))
  }

  /** The items of `lines`, where `previous` is the line before the first of them. */
  function ParseRest(lines: seq<string>, previous: Option<string>): (items: seq<DisplayItem>)
    ensures |items| <= |lines|
    decreases |lines|
  {
    if |lines| == 0 then []
    else
      var item := ParseLine(lines[0], previous);
      (if item.Some? then [item.value] else []) + ParseRest(lines[1..], Some(lines[0]))
  }

  /**
   * `parseInputFile`: a first line carrying the export marker is skipped
   * without becoming the previous line; every other line goes through
   * `ParseLine`.
   */
  function ParseInputFile(lines: seq<string>): (items: seq<DisplayItem>)
    ensures |items| <= |lines|
    ensures forall i | 0 <= i < |items| :: IsTrimmed(items[i].name) && IsTrimmed(items[i].value)
  {
    var items := if |lines| > 0 && StartsWith(lines[0], ExportMarker) then ParseRest(lines[1..], None)
                 else ParseRest(lines, None);
    ParsedItemsTrimmed(if |lines| > 0 && StartsWith(lines[0], ExportMarker) then lines[1..] else lines, None);
    items
  }

  /** Every parsed name and value is trimmed. */
  lemma {:induction false} ParsedItemsTrimmed(lines: seq<string>, previous: Option<string>)
    ensures forall i | 0 <= i < |ParseRest(lines, previous)| ::
      IsTrimmed(ParseRest(lines, previous)[i].name) && IsTrimmed(ParseRest(lines, previous)[i].value)
    decreases |lines|
  {
    if |lines| > 0 {
      var item := ParseLine(lines[0], previous);
      var head: seq<DisplayItem> := if item.Some? then [item.value] else [];
      var tail := ParseRest(lines[1..], Some(lines[0]));
      ParsedItemsTrimmed(lines[1..], Some(lines[0]));
      assert ParseRest(lines, previous) == head + tail;
      forall i | 0 <= i < |head + tail|
        ensures IsTrimmed((head + tail)[i].name) && IsTrimmed((head + tail)[i].value)
      {
        if i >= |head| {
          assert (head + tail)[i] == tail[i - |head|];
        }
      }
    }
  }

  /** A line starting with `#` yields no item; it only becomes the next item's comment candidate. */
  lemma CommentLineYieldsNoItem(line: string, rest: seq<string>, previous: Option<string>)
    requires StartsWith(line, "#")
    ensures ParseRest([line] + rest, previous) == ParseRest(rest, Some(line))
  {
    assert ([line] + rest)[1..] == rest;
  }

  /** A line without `=` yields no item. */
  lemma LineWithoutEqualsYieldsNoItem(line: string, rest: seq<string>, previous: Option<string>)
    requires '=' !in line
    ensures ParseRest([line] + rest, previous) == ParseRest(rest, Some(line))
  {
    assert ([line] + rest)[1..] == rest;
  }

  /** The first `=` of `key=value` is the one after `key` when `key` has none. */
  lemma {:induction false} SplitKeyValue(key: string, value: string)
    requires '=' !in key
    ensures SplitAtFirstEquals(key + "=" + value) == Some((key, value))
  {
    var line := key + "=" + value;
    assert line[|key|] == '=';
    var i := IndexOf(line, '=').value;
    assert line[..i] == key[..i];
    assert i == |key|;
    assert line[..|key|] == key;
    assert line[|key| + 1..] == value;
  }

  /** Only the first `=` splits: the value keeps every later `=`. */
  lemma SplitsAtFirstEqualsOnly(key: string, value: string, previous: Option<string>)
    requires '=' !in key && !StartsWith(key, "#")
    ensures ParseLine(key + "=" + value, previous) == Some(DisplayItem(Trim(key), Trim(value), CommentOf(previous)))
  {
    var line := key + "=" + value;
    assert !StartsWith(line, "#") by {
      if |key| > 0 {
        assert line[0] == key[0];
        assert key[..1] == [key[0]];
      } else {
        assert line[0] == '=';
      }
    }
    SplitKeyValue(key, value);
  }

  /**
   * An item survives an export and re-import when its text does not clash
   * with the line syntax: no line breaks anywhere, no `=` or leading `#`
   * in the name, nothing to trim.
   */
  ghost predicate Exportable(item: DisplayItem) {
    && IsTrimmed(item.name) && '=' !in item.name && !StartsWith(item.name, "#") && OnOneLine(item.name)
    && IsTrimmed(item.value) && OnOneLine(item.value)
    && (item.comment.Some? ==> IsTrimmed(item.comment.value) && OnOneLine(item.comment.value))
  }

  /** What the import makes of an item: an empty comment is written as no comment line at all. */
  function Normalised(item: DisplayItem): DisplayItem {
    if HasComment(item) then item else item.(comment := None)
  }

  function NormalisedAll(items: seq<DisplayItem>): (r: seq<DisplayItem>)
    ensures |r| == |items|
    ensures forall i | 0 <= i < |items| :: r[i] == Normalised(items[i])
  {
    if |items| == 0 then [] else [Normalised(items[0])] + NormalisedAll(items[1..])
  }

  /** The comment line of an exported item gives back the comment. */
  lemma CommentLineRoundTrip(c: string)
    requires IsTrimmed(c) && c != ""
    ensures CommentOf(Some("# " + c)) == Some(c)
  {
    var line := "# " + c;
    assert StartsWith(line, "#");
    assert line[1..] == " " + c;
    assert TrimLeadingCharacter(line, '#') == " " + c;
    TrimAfterSpace(c);
  }

  /** The `name=value` line of an exported item gives back its name and value. */
  lemma PropertyLineRoundTrip(item: DisplayItem, previous: Option<string>)
    requires Exportable(item)
    ensures ParseLine(item.name + "=" + item.value, previous)
      == Some(DisplayItem(item.name, item.value, CommentOf(previous)))
  {
    SplitsAtFirstEqualsOnly(item.name, item.value, previous);
    TrimFixesTrimmed(item.name);
    TrimFixesTrimmed(item.value);
  }

  /** Parsing one exported item, followed by anything, yields the item first. */
  lemma ItemRoundTrip(item: DisplayItem, rest: seq<string>, previous: Option<string>)
    requires Exportable(item)
    requires previous.None? || !StartsWith(previous.value, "#")
    ensures ParseRest(ItemLines(item) + rest, previous)
      == [Normalised(item)] + ParseRest(rest, Some(item.name + "=" + item.value))
  {
    var line := item.name + "=" + item.value;
    if HasComment(item) {
      var first := "# " + item.comment.value;
      assert ItemLines(item) + rest == [first] + ([line] + rest);
      CommentLineYieldsNoItem(first, [line] + rest, previous);
      PropertyLineRoundTrip(item, Some(first));
      CommentLineRoundTrip(item.comment.value);
      assert ([line] + rest)[1..] == rest;
    } else {
      assert ItemLines(item) + rest == [line] + rest;
      PropertyLineRoundTrip(item, previous);
      assert ([line] + rest)[1..] == rest;
    }
  }

  /** Parsing the exported body gives back the items, when the line before it is not a comment. */
  lemma {:induction false} BodyRoundTrip(items: seq<DisplayItem>, previous: Option<string>)
    requires forall i | 0 <= i < |items| :: Exportable(items[i])
    requires previous.None? || !StartsWith(previous.value, "#")
    ensures ParseRest(Body(items), previous) == NormalisedAll(items)
    decreases |items|
  {
    if |items| > 0 {
      var item := items[0];
      var line := item.name + "=" + item.value;
      assert !StartsWith(line, "#") by {
        assert ParseLine(line, None).Some? by {
          PropertyLineRoundTrip(item, None);
        }
      }
      ItemRoundTrip(item, Body(items[1..]), previous);
      BodyRoundTrip(items[1..], Some(line));
      assert NormalisedAll(items) == [Normalised(item)] + NormalisedAll(items[1..]);
    }
  }

  /** A first line carrying the export marker is dropped and leaves no previous line. */
  lemma HeaderIsSkipped(header: string, rest: seq<string>)
    requires StartsWith(header, ExportMarker)
    ensures ParseInputFile([header] + rest) == ParseRest(rest, None)
  {
    assert ([header] + rest)[1..] == rest;
  }

  /**
   * Export then import gives back the exported items: same names, values
   * and non-empty comments, in order; an absent or empty comment comes
   * back absent.
   */
  lemma {:induction false} ExportImportRoundTrip(root: string, version: string, group: string, items: seq<DisplayItem>)
    requires forall i | 0 <= i < |items| :: Exportable(items[i])
    ensures ParseInputFile(FormatPropertyLines(root, version, group, items)) == NormalisedAll(items)
  {
    var header := Header(root, version, group);
    var body := Body(items);
    assert FormatPropertyLines(root, version, group, items) == [header] + ([""] + body);
    HeaderIsSkipped(header, [""] + body);
    LineWithoutEqualsYieldsNoItem("", body, None);
    BodyRoundTrip(items, Some(""));
  }

  /** The export header stays on one line when the names it quotes do. */
  lemma HeaderOnOneLine(root: string, version: string, group: string)
    requires OnOneLine(root) && OnOneLine(version) && OnOneLine(group)
    ensures OnOneLine(Header(root, version, group))
  {
    assert OnOneLine(ExportMarker);
    assert OnOneLine(" configuration group: [");
    assert OnOneLine("] - [");
    assert OnOneLine("].");
  }

  /**
   * The single-group document, read back line by line and parsed, gives
   * back the exported items, when the root, version and group names hold
   * no line break.
   */
  lemma {:induction false} ExportFileRoundTrip(root: string, version: string, group: string, items: seq<DisplayItem>)
    requires OnOneLine(root) && OnOneLine(version) && OnOneLine(group)
    requires forall i | 0 <= i < |items| :: Exportable(items[i])
    ensures ParseInputFile(ReadLines(ExportText(root, version, group, items))) == NormalisedAll(items)
  {
    var lines := FormatPropertyLines(root, version, group, items);
    var body := Body(items);
    HeaderOnOneLine(root, version, group);
    BodyOnOneLine(items);
    forall i | 0 <= i < |lines| ensures OnOneLine(lines[i]) {
      if i >= 2 {
        assert lines[i] == body[i - 2];
      }
    }
    ReadLinesOfJoined(lines);
    if |items| == 0 {
      assert DropFinalEmpty(lines) == [Header(root, version, group)];
      HeaderIsSkipped(Header(root, version, group), []);
    } else {
      assert lines[|lines| - 1] == body[|body| - 1];
      assert '=' in lines[|lines| - 1];
      ExportImportRoundTrip(root, version, group, items);
    }
  }
}
