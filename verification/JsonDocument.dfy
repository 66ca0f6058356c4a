/** Printing and parsing together, through the two buffers. */
module JsonDocument {
  import opened JsonText
  import JsonGrammar
  import JsonParser
  import JsonPrinter
  import JsonRoundTrip

  /** Print a tree and parse the text: the tree comes back exactly when its nesting is allowed. */
  method PrintAndParse(v: Value, format: bool, requireNul: bool)
    returns (printed: bool, parsed: bool, copy: Value)
    requires WellFormed(v)
    ensures JsonPrinter.Printable(v) && |Printed(v, format, 0)| + 2 <= JsonPrinter.INT_MAX ==> printed
    ensures printed ==> (parsed <==> Nesting(v) <= JsonGrammar.NESTING_LIMIT)
    ensures printed && parsed ==> copy == v
  {
    hide Printed, WellFormed, JsonPrinter.Printable, JsonGrammar.ParseBuffer;
    var text;
    parsed, copy := false, v;
    printed, text := JsonPrinter.Print(v, format);
    if printed {
      JsonRoundTrip.DocumentRoundTrip(v, format, requireNul);
      var end;
      parsed, copy, end := JsonParser.Parse(text + [0], requireNul);
    }
  }
}
