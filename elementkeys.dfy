/**
 * The string conventions for element keys: `strip` removes the `:n` suffix
 * that the key generator adds, `get_record_info` splits `table.column`, the
 * element mapper reads `table.column?where_column=where_value`, and
 * `record` derives a label text from the column (or the where value).
 */
module ElementKeys {
  import opened Values
  import opened Strings

  /**
   * `strip(string)`: the text before the first ':', that is the longest
   * prefix without a colon.
   */
  function Strip(s: string): (r: string)
    ensures r <= s
    ensures ':' !in r
    ensures r == s || s[|r|] == ':'
  {
    Split(s, ':')[0]
  }

  /** `get_record_info(record)`: the parts of a dotted name, as a list. */
  function GetRecordInfo(record: string): (parts: seq<string>)
    ensures |parts| >= 1
    ensures forall k :: 0 <= k < |parts| ==> '.' !in parts[k]
    ensures Join(parts, '.') == record
  {
    JoinSplit(record, '.');
    Split(record, '.')
  }

  /** `table.column` gives back exactly the table and the column. */
  lemma RecordInfoOfColumn(table: string, column: string)
    requires '.' !in table && '.' !in column
    ensures GetRecordInfo(table + "." + column) == [table, column]
  {
    JoinTwo(table, column, '.');
    SplitJoin([table, column], '.');
  }

  /** What the element mapper reads from a record element's key. */
  datatype ElementKey = ElementKey(table: string, column: string, filter: Option<(string, string)>)

  /**
   * The key parsing of `Form.auto_map_elements` for record elements: a
   * '?' splits off `where_column=where_value`, and the rest must be
   * exactly `table.column`. Each tuple unpacking raises ValueError on
   * the wrong number of parts.
   */
  function ParseElementKey(key: string): (r: Result<ElementKey>)
    ensures r.Ok? ==> '.' !in r.value.table && '.' !in r.value.column
    ensures r.Ok? && r.value.filter.Some? ==> '=' !in r.value.filter.value.0 && '=' !in r.value.filter.value.1
    ensures r.Err? ==> r.error.Unpack? && r.error.expected == 2 && r.error.got != 2
  {
    var halves := Split(key, '?');
    if |halves| > 2 then Err(Unpack(2, |halves|))
    else
      var names := Split(halves[0], '.');
      if |names| != 2 then Err(Unpack(2, |names|))
      else if |halves| == 1 then Ok(ElementKey(names[0], names[1], None))
      else
        var condition := Split(halves[1], '=');
        if |condition| != 2 then Err(Unpack(2, |condition|))
        else Ok(ElementKey(names[0], names[1], Some((condition[0], condition[1]))))
  }

  /** The key naming convention, written out: `table.column[?where_column=where_value]`. */
  function FormatElementKey(k: ElementKey): string {
    k.table + "." + k.column
      + match k.filter
        case None => ""
        case Some(f) => "?" + f.0 + "=" + f.1
  }

  /** The components that the convention can carry. */
  predicate WellFormed(k: ElementKey) {
    && '.' !in k.table && '?' !in k.table
    && '.' !in k.column && '?' !in k.column
    && (k.filter.Some? ==>
          '?' !in k.filter.value.0 && '=' !in k.filter.value.0
          && '?' !in k.filter.value.1 && '=' !in k.filter.value.1)
  }

  /** Every well-formed key is read back as written. */
  lemma ParseFormat(k: ElementKey)
    requires WellFormed(k)
    ensures ParseElementKey(FormatElementKey(k)) == Ok(k)
  {
    var tableInfo := k.table + "." + k.column;
    JoinTwo(k.table, k.column, '.');
    SplitJoin([k.table, k.column], '.');
    assert '?' !in tableInfo;
    match k.filter
    case None =>
      assert FormatElementKey(k) == tableInfo;
      SplitJoin([tableInfo], '?');
    case Some(f) =>
      var whereInfo := f.0 + "=" + f.1;
      assert '?' !in whereInfo;
      JoinTwo(tableInfo, whereInfo, '?');
      assert FormatElementKey(k) == tableInfo + "?" + whereInfo;
      SplitJoin([tableInfo, whereInfo], '?');
      JoinTwo(f.0, f.1, '=');
      SplitJoin([f.0, f.1], '=');
  }

  /** Every key that parses is the convention written out for what it parsed to. */
  lemma FormatParse(key: string, k: ElementKey)
    requires ParseElementKey(key) == Ok(k)
    ensures WellFormed(k)
    ensures FormatElementKey(k) == key
  {
    var halves := Split(key, '?');
    var names := Split(halves[0], '.');
    assert '?' !in halves[0];
    TwoParts(halves[0], '.', '?');
    var tableInfo := k.table + "." + k.column;
    assert tableInfo == halves[0];
    if |halves| == 1 {
      JoinSplit(key, '?');
      assert key == halves[0];
      assert FormatElementKey(k) == tableInfo + "";
    } else {
      FilteredKey(key, k);
    }
  }

  lemma FilteredKey(key: string, k: ElementKey)
    requires ParseElementKey(key) == Ok(k)
    requires |Split(key, '?')| == 2
    ensures WellFormed(k)
    ensures FormatElementKey(k) == key
  {
    var halves := Split(key, '?');
    var names := Split(halves[0], '.');
    var condition := Split(halves[1], '=');
    assert k == ElementKey(names[0], names[1], Some((condition[0], condition[1])));
    OneSeparator(key, '?');
    assert '?' !in halves[0] && '?' !in halves[1];
    TwoParts(halves[0], '.', '?');
    TwoParts(halves[1], '=', '?');
    FormatFiltered(names[0], names[1], condition[0], condition[1]);
  }

  lemma FormatFiltered(table: string, column: string, whereColumn: string, whereValue: string)
    ensures FormatElementKey(ElementKey(table, column, Some((whereColumn, whereValue))))
         == (table + "." + column) + "?" + (whereColumn + "=" + whereValue)
  {
  }

  /** A string that splits in two is its two parts around the separator. */
  lemma TwoParts(s: string, c: char, d: char)
    requires |Split(s, c)| == 2
    requires d !in s
    ensures s == Split(s, c)[0] + [c] + Split(s, c)[1]
    ensures d !in Split(s, c)[0] && d !in Split(s, c)[1]
  {
    OneSeparator(s, c);
    SplitPartsWithout(s, c, d);
  }

  lemma OneSeparator(s: string, c: char)
    requires |Split(s, c)| == 2
    ensures s == Split(s, c)[0] + [c] + Split(s, c)[1]
  {
    var parts := Split(s, c);
    JoinSplit(s, c);
    assert parts == [parts[0], parts[1]];
    JoinTwo(parts[0], parts[1], c);
  }

  /** The label of `record`: the name without "fk", '_' as blanks, capitalized, and a colon. */
  function Label(name: string): string {
    Capitalize(Replace(Replace(name, "fk", ""), "_", " ")) + ":"
  }

  /**
   * The label text that `record(table, ...)` derives: from the where value
   * when the key has a '?', from the column otherwise; the splits and
   * unpackings on the way raise as they do in Python.
   */
  function LabelText(record: string): (r: Result<string>)
    ensures r.Ok? ==> |r.value| >= 1 && r.value[|r.value| - 1] == ':'
    ensures r.Err? ==> r.error == NoField(1) || (r.error.Unpack? && r.error.expected == 2 && r.error.got != 2)
  {
    var halves := Split(record, '?');
    if |halves| >= 2 then
      if |halves| != 2 then Err(Unpack(2, |halves|))
      else
        var condition := Split(halves[1], '=');
        if |condition| < 2 then Err(NoField(1))
        else
          var names := Split(halves[0], '.');
          if |names| != 2 then Err(Unpack(2, |names|))
          else Ok(Label(condition[1]))
    else
      var names := Split(record, '.');
      if |names| < 2 then Err(NoField(1))
      else if |names| != 2 then Err(Unpack(2, |names|))
      else Ok(Label(names[1]))
  }

  /**
   * A label ends in a colon, has no underscore, starts with no lower-case
   * letter and has no upper-case letter after the first character.
   */
  lemma LabelShape(name: string)
    ensures var l := Label(name);
      && |l| >= 1 && l[|l| - 1] == ':'
      && '_' !in l
      && (|l| > 1 ==> !('a' <= l[0] <= 'z'))
      && forall k :: 1 <= k < |l| - 1 ==> !('A' <= l[k] <= 'Z')
  {
    var spaced := Replace(Replace(name, "fk", ""), "_", " ");
    ReplaceRemovesChar(Replace(name, "fk", ""), '_', " ");
    var c := Capitalize(spaced);
    CapitalizedShape(spaced);
    var l := c + ":";
    assert Label(name) == l;
    assert forall k :: 0 <= k < |c| ==> l[k] == c[k];
  }

  /** Capitalizing text without an underscore keeps it so, and leaves upper case at most at the front. */
  lemma CapitalizedShape(s: string)
    requires '_' !in s
    ensures '_' !in Capitalize(s)
    ensures |s| > 0 ==> !('a' <= Capitalize(s)[0] <= 'z')
    ensures forall k :: 1 <= k < |s| ==> !('A' <= Capitalize(s)[k] <= 'Z')
  {
    var c := Capitalize(s);
    forall k | 0 <= k < |c| ensures c[k] != '_' {
      assert s[k] in s;
      if k > 0 {
        assert c[k] == Lower(s[1..])[k - 1] == LowerChar(s[k]);
      }
    }
    forall k | 1 <= k < |c| ensures !('A' <= c[k] <= 'Z') {
      assert c[k] == Lower(s[1..])[k - 1] == LowerChar(s[k]);
    }
  }


  /**
   * Every key the element mapper accepts also gets a label from `record`:
   * the where value's label when there is one, the column's otherwise.
   */
  lemma ParsedKeyHasLabel(key: string, k: ElementKey)
    requires ParseElementKey(key) == Ok(k)
    ensures LabelText(key) == Ok(Label(if k.filter.Some? then k.filter.value.1 else k.column))
  {
  }
}
