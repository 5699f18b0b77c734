/** Printing a mapping with its values plain, single-quoted or double-quoted, and reading it back
    (config/yaml_mapping.py). */
module YamlStyles {
  import opened Text
  import opened YamlMapping
  import opened YamlProperties
  import opened YamlGrammar
  import opened YamlTexts

  /** How each value is written out. */
  type Style = string -> string

  function StyledPair(pad: string, key: string, form: string): string {
    pad + (key + (": " + form))
  }

  function StyledBlock(key: string, node: Node, style: Style): seq<string> {
    match node
    case Scalar(text) => [StyledPair("", key, style(text))]
    case Section(entries) =>
      [key + ":"]
      + seq(|entries|, i requires 0 <= i < |entries| => StyledPair("  ", entries[i].0, style(entries[i].1)))
  }

  function StyledBlocks(m: Mapping, style: Style): seq<seq<string>> {
    seq(|m|, i requires 0 <= i < |m| => StyledBlock(m[i].0, m[i].1, style))
  }

  function PrintStyled(m: Mapping, style: Style): string {
    JoinLines(Flatten(StyledBlocks(m, style)))
  }

  /** A one-line form of the value. */
  predicate Renders(style: Style, value: string) {
    Form(style(value), value) && NoBreaks(style(value))
  }

  predicate RendersNode(style: Style, node: Node) {
    match node
    case Scalar(text) => Renders(style, text)
    case Section(entries) => forall i :: 0 <= i < |entries| ==> Renders(style, entries[i].1)
  }

  predicate RendersAll(style: Style, m: Mapping) {
    forall i :: 0 <= i < |m| ==> RendersNode(style, m[i].1)
  }

  /** A line that survives joining and splitting, and is content. */
  predicate Solid(line: string) {
    NoBreaks(line) && HasContent(line)
  }

  predicate AllSolid(lines: seq<string>) {
    forall i :: 0 <= i < |lines| ==> Solid(lines[i])
  }

  // ---- One line ----

  lemma FormPart(form: string, value: string)
    requires Form(form, value)
    ensures ValuePart(" " + form, Some(value))
  {
    assert " " + form == " " + form + "";
  }

  lemma PartText(key: string, part: string, value: Option<string>)
    requires ValuePart(part, value)
    ensures EntryText(key + (":" + part), key, value)
  {
    Empty(key);
    Assoc(key, ":", part);
    assert key + (":" + part) == key + "" + ":" + part;
  }

  lemma TextLine(pad: string, text: string, key: string, value: Option<string>)
    requires AllBlank(pad) && LegalKey(key) && EntryText(text, key, value)
    ensures EntryLine(pad + text, |pad|, key, value) && HasContent(pad + text)
  {
    Empty(text);
    Assembled(pad, "", text, key, value);
    EntryLineIsRead(pad + text, |pad|, key, value);
    LineRefusals(pad + text);
  }

  lemma NoBreaksAppend(a: string, b: string)
    requires NoBreaks(a) && NoBreaks(b)
    ensures NoBreaks(a + b)
  {
  }

  lemma PairText(key: string, form: string, value: string)
    requires LegalKey(key) && Form(form, value) && NoBreaks(form)
    ensures EntryText(key + (": " + form), key, Some(value)) && NoBreaks(key + (": " + form))
  {
    FormPart(form, value);
    assert ":" + " " == ": ";
    Assoc(":", " ", form);
    PartText(key, " " + form, Some(value));
    NoBreaksAppend(": ", form);
    NoBreaksAppend(key, ": " + form);
  }

  lemma PairLine(pad: string, key: string, form: string, value: string)
    requires AllBlank(pad) && LegalKey(key) && Form(form, value) && NoBreaks(form)
    ensures var line := StyledPair(pad, key, form);
            EntryLine(line, |pad|, key, Some(value)) && Solid(line)
  {
    PairText(key, form, value);
    TextLine(pad, key + (": " + form), key, Some(value));
    NoBreaksAppend(pad, key + (": " + form));
  }

  lemma HeaderLine(key: string)
    requires LegalKey(key)
    ensures EntryLine(key + ":", 0, key, None) && Solid(key + ":")
  {
    assert "" == "" + "" + "";
    assert ValuePart("", None);
    PartText(key, "", None);
    Empty(":");
    TextLine("", key + ":", key, None);
    Empty(key + ":");
    NoBreaksAppend(key, ":");
  }

  // ---- The whole mapping ----

  lemma BlockWritten(key: string, node: Node, style: Style)
    requires LegalKey(key) && LegalNode(node) && RendersNode(style, node)
    ensures Block(StyledBlock(key, node, style), 2, key, node) && AllSolid(StyledBlock(key, node, style))
  {
    match node
    case Scalar(text) => PairLine("", key, style(text), text);
    case Section(entries) =>
      HeaderLine(key);
      var lines := seq(|entries|, i requires 0 <= i < |entries| => StyledPair("  ", entries[i].0, style(entries[i].1)));
      forall i | 0 <= i < |entries|
        ensures EntryLine(lines[i], 2, entries[i].0, Some(entries[i].1)) && Solid(lines[i])
      {
        PairLine("  ", entries[i].0, style(entries[i].1), entries[i].1);
      }
      Drop([key + ":"], lines);
  }

  lemma {:induction false} FlattenSolid(blocks: seq<seq<string>>)
    requires forall i :: 0 <= i < |blocks| ==> AllSolid(blocks[i])
    ensures AllSolid(Flatten(blocks))
  {
    if blocks == [] {
    } else {
      FlattenSolid(blocks[..|blocks| - 1]);
    }
  }

  lemma {:induction false} SolidIsContent(lines: seq<string>)
    requires AllSolid(lines)
    ensures Content(lines) == lines
  {
    if lines == [] {
    } else {
      var n := |lines| - 1;
      SolidIsContent(lines[..n]);
      assert lines == lines[..n] + [lines[n]];
    }
  }

  lemma StyledIsWritten(m: Mapping, style: Style)
    requires Printable(m) && RendersAll(style, m)
    ensures Writes(Flatten(StyledBlocks(m, style)), m) && AllSolid(Flatten(StyledBlocks(m, style)))
  {
    var blocks := StyledBlocks(m, style);
    var widths := seq(|m|, i => 2);
    forall i | 0 <= i < |m|
      ensures Block(blocks[i], 2, m[i].0, m[i].1) && AllSolid(blocks[i])
    {
      BlockWritten(m[i].0, m[i].1, style);
    }
    FlattenSolid(blocks);
    assert Blocks(blocks, widths, m);
  }

  /** Printed in any style that gives each value one of its forms - plain, single-quoted, double-quoted, or a
      mixture - a printable mapping is read back. */
  lemma StyledRoundTrip(m: Mapping, style: Style)
    requires Printable(m) && RendersAll(style, m)
    ensures Parse(PrintStyled(m, style)) == Parsed(m)
  {
    var lines := Flatten(StyledBlocks(m, style));
    StyledIsWritten(m, style);
    SolidIsContent(lines);
    SplitJoin(lines);
    GrammarExactly(lines, m);
  }

  /** A value that may stand on its own. */
  predicate Plain(value: string) {
    value != "" && Trimmed(value) && !Quoted(value)
  }

  function PlainStyle(value: string): string {
    value
  }

  function SingleQuoted(value: string): string {
    "'" + value + "'"
  }

  /** Single quotes can write every value, whatever characters it holds. */
  lemma SingleQuotedRoundTrip(m: Mapping)
    requires Printable(m)
    ensures Parse(PrintStyled(m, SingleQuoted)) == Parsed(m)
  {
    forall i | 0 <= i < |m| ensures RendersNode(SingleQuoted, m[i].1) {
      assert LegalNode(m[i].1);
    }
    StyledRoundTrip(m, SingleQuoted);
  }

  predicate PlainNode(node: Node) {
    match node
    case Scalar(text) => Plain(text)
    case Section(entries) => forall i :: 0 <= i < |entries| ==> Plain(entries[i].1)
  }

  /** Values that are not empty, not padded and not in quotes need none. */
  lemma PlainRoundTrip(m: Mapping)
    requires Printable(m) && forall i :: 0 <= i < |m| ==> PlainNode(m[i].1)
    ensures Parse(PrintStyled(m, PlainStyle)) == Parsed(m)
  {
    forall i | 0 <= i < |m| ensures RendersNode(PlainStyle, m[i].1) {
      assert LegalNode(m[i].1) && PlainNode(m[i].1);
    }
    StyledRoundTrip(m, PlainStyle);
  }
}
