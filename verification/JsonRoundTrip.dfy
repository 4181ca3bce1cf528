/** Printing a tree and parsing the text, by the methods that do it: a copy of the tree. */
module JsonRoundTrip {
  import opened Ascii
  import opened JsonValue
  import opened JsonDocument
  import opened JsonText
  import opened JsonTree
  import JsonParser
  import JsonPrinter

  /** What `cJSON_Print` or `cJSON_PrintUnformatted` writes, `cJSON_ParseWithOpts` turns into a separate tree of
      the same value, reading the text to its end. */
  method PrintThenParse(item: Item, format: bool, hasRealloc: bool) returns (copy: Item?, text: array<byte>, end: nat)
    requires item.Valid() && Printable(item.value) && Nesting(item.value) <= 1000
    requires |Serialize(item.value, format, 0)| + 2 <= 0x7FFF_FFFF
    ensures copy != null && copy.Valid() && fresh(copy.repr) && copy.value == item.value
    ensures end == text.Length - 1
  {
    hide Serialize, Printable, Nesting, Item.Valid;
    var ok;
    ok, text := JsonPrinter.Print(item, format, hasRealloc);
    RoundTrip(item.value, format);
    assert text[..text.Length - 1] == Serialize(item.value, format, 0);
    copy, end := JsonParser.ParseWithOpts(text[..text.Length - 1], true);
  }
}
