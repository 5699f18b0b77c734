/** The grammar of the YAML subset: which texts are read, as what, and which error comes first
    (config/yaml_mapping.py). */
module YamlGrammar {
  import opened Text
  import opened YamlMapping
  import opened YamlProperties

  // ---- How a value may be written ----

  predicate Quoted(v: string) {
    |v| >= 2 && v[0] == v[|v| - 1] && (v[0] == '\'' || v[0] == '"')
  }

  /** In double quotes, in single quotes, or as it stands. */
  predicate Form(form: string, value: string) {
    || form == "\"" + value + "\"" || form == "'" + value + "'"
    || (form == value && value != "" && Trimmed(value) && !Quoted(value))
  }

  /** The text after the colon: a value between white space, or nothing but white space. */
  ghost predicate ValuePart(part: string, value: Option<string>) {
    exists before: string, form: string, after: string ::
      && part == before + form + after && AllSpace(before) && AllSpace(after)
      && (if value.None? then form == "" else Form(form, value.value))
  }

  function ReadValue(part: string): Option<string> {
    var value := Strip(part);
    if value == "" then None else Some(Unquote(value))
  }

  lemma FormRead(form: string, value: string)
    requires Form(form, value)
    ensures form != "" && Trimmed(form) && Unquote(form) == value
  {
    if form == "\"" + value + "\"" || form == "'" + value + "'" {
      assert form[1..|form| - 1] == value;
    }
  }

  lemma UnquotedForm(v: string)
    requires v != "" && Trimmed(v)
    ensures Form(v, Unquote(v))
  {
    if Quoted(v) {
      assert v == [v[0]] + v[1..|v| - 1] + [v[|v| - 1]];
    }
  }

  lemma ValuePartRead(part: string, value: Option<string>)
    ensures ReadValue(part) == value <==> ValuePart(part, value)
  {
    if ReadValue(part) == value {
      var l, r := StripSplits(part);
      if Strip(part) != "" {
        UnquotedForm(Strip(part));
      }
      assert part == l + Strip(part) + r;
    }
    if ValuePart(part, value) {
      var before, form, after :|
        && part == before + form + after && AllSpace(before) && AllSpace(after)
        && (if value.None? then form == "" else Form(form, value.value));
      if value.Some? {
        FormRead(form, value.value);
      }
      StripUnique(before, form, after);
    }
  }

  // ---- How an entry may be written ----

  predicate AllBlank(s: string) {
    forall i :: 0 <= i < |s| ==> s[i] == ' '
  }

  /** White space between the indentation and the key; a tab there is refused. */
  predicate Lead(lead: string) {
    AllSpace(lead) && (lead == "" || (lead[0] != ' ' && lead[0] != '\t'))
  }

  /** The entry from its key on. */
  ghost predicate EntryText(text: string, key: string, value: Option<string>) {
    exists gap: string, part: string :: text == key + gap + ":" + part && AllSpace(gap) && ValuePart(part, value)
  }

  /** `line` is written as `indent` blanks, `key: value` or `key:`, with white space around the parts. */
  ghost predicate EntryLine(line: string, indent: nat, key: string, value: Option<string>) {
    exists pad: string, lead: string, text: string ::
      line == pad + lead + text && |pad| == indent && AllBlank(pad) && Lead(lead) && EntryText(text, key, value)
  }

  /** Trailing white space of an entry is white space of its value part. */
  lemma TrimEntry(head: string, part: string) returns (after: string, r: string)
    requires head != "" && !IsSpace(head[0])
    ensures part == after + r && AllSpace(r)
    ensures Strip(head + ":" + part) == head + ":" + after
  {
    r := RStripSplits(part);
    after := RStrip(part);
    TrimmedEntry(head, after);
    StripUnique("", head + ":" + after, r);
    Assoc(head + ":", after, r);
    Empty(head + ":" + after);
  }

  lemma TrimmedEntry(head: string, after: string)
    requires head != "" && !IsSpace(head[0]) && (after == "" || !IsSpace(after[|after| - 1]))
    ensures Trimmed(head + ":" + after)
  {
    var content := head + ":" + after;
    assert content[|content| - 1] == if after == "" then ':' else after[|after| - 1];
  }

  lemma SameValue(after: string, r: string, part: string)
    requires AllSpace(r) && part == after + r
    ensures ReadValue(after) == ReadValue(part)
  {
    var l, t := StripSplits(after);
    StripUnique(l, Strip(after), t + r);
    assert l + Strip(after) + (t + r) == part;
  }

  lemma {:induction false} ColonAfterGap(key: string, gap: string, after: string)
    requires LegalKey(key) && AllSpace(gap)
    ensures ColonIndex(key + gap + ":" + after) == |key + gap|
  {
    var head := key + gap;
    forall i | 0 <= i < |head| ensures head[i] != ':' {
      assert i >= |key| ==> head[i] == gap[i - |key|];
    }
    ColonAt(head, after);
  }

  lemma SplitAtColon(indent: nat, key: string, gap: string, after: string)
    requires LegalKey(key) && AllSpace(gap)
    ensures SplitEntry(indent, key + gap + ":" + after) == Entry(indent, key, ReadValue(after))
  {
    ColonAfterGap(key, gap, after);
    CutAtColon(key + gap, after);
    StripUnique("", key, gap);
    assert "" + key + gap == key + gap;
  }

  lemma SplitRead(indent: nat, text: string, key: string, value: Option<string>)
    requires LegalKey(key) && EntryText(text, key, value)
    ensures text != "" && text[0] == key[0]
    ensures Strip(text) != "" && Strip(text)[0] == key[0]
    ensures SplitEntry(indent, Strip(text)) == Entry(indent, key, value)
  {
    var gap, part :| text == key + gap + ":" + part && AllSpace(gap) && ValuePart(part, value);
    var after, r := TrimEntry(key + gap, part);
    SplitAtColon(indent, key, gap, after);
    SameValue(after, r, part);
    ValuePartRead(part, value);
  }

  lemma LeadStripped(lead: string, text: string)
    requires AllSpace(lead) && text != "" && !IsSpace(text[0])
    ensures Strip(lead + text) == Strip(text)
  {
    var l, r := StripSplits(text);
    assert forall i :: 0 <= i < |l| ==> l[i] == text[i];
    assert l == "";
    StripKeepsHead(text);
    StripUnique(lead, Strip(text), r);
    assert lead + Strip(text) + r == lead + text;
  }

  lemma EntryLineIsRead(line: string, indent: nat, key: string, value: Option<string>)
    requires LegalKey(key) && EntryLine(line, indent, key, value)
    ensures Classify(line) == Entry(indent, key, value)
  {
    var pad, lead, text :|
      line == pad + lead + text && |pad| == indent && AllBlank(pad) && Lead(lead) && EntryText(text, key, value);
    SplitRead(indent, text, key, value);
    var body := lead + text;
    Assoc(pad, lead, text);
    LeadStripped(lead, text);
    ClassifyPadded(pad, body);
  }

  lemma BlankLineSkipped(line: string)
    requires AllSpace(line)
    ensures Classify(line) == Skipped
  {
    RStripOfStrip(line, line, "", "");
    assert line == line + "" + "";
  }

  /** The text before the first colon is a key and a gap. */
  lemma KeyAndGap(before: string) returns (gap: string)
    requires before == "" || !IsSpace(before[0])
    ensures before == Strip(before) + gap && AllSpace(gap)
  {
    var l, r := StripSplits(before);
    assert forall i :: 0 <= i < |l| ==> l[i] == before[i];
    assert l == "";
    gap := r;
  }

  lemma ReadSplitIsWritten(indent: nat, content: string, r: string, key: string, value: Option<string>)
    requires content != "" && Trimmed(content) && AllSpace(r)
    requires SplitEntry(indent, content) == Entry(indent, key, value)
    ensures EntryText(content + r, key, value)
  {
    var c := ColonIndex(content);
    ColonIndexSpec(content);
    var gap := KeyAndGap(content[..c]);
    var after := content[c + 1..];
    assert content == content[..c] + ":" + after;
    assert content + r == key + gap + ":" + (after + r);
    SameValue(after, r, after + r);
    ValuePartRead(after + r, value);
  }

  lemma ReadBody(pad: string, body: string, indent: nat, key: string, value: Option<string>)
    requires AllBlank(pad) && body != "" && body[0] != ' '
    requires Classify(pad + body) == Entry(indent, key, value)
    ensures indent == |pad| && body[0] != '\t' && Strip(body) != ""
    ensures SplitEntry(indent, Strip(body)) == Entry(indent, key, value)
  {
    ClassifyPadded(pad, body);
    if Strip(body) != "" {
      var _, _ := StripSplits(body);
      SplitRefusals(|pad|, Strip(body));
    }
  }

  lemma Assembled(pad: string, lead: string, text: string, key: string, value: Option<string>)
    requires AllBlank(pad) && Lead(lead) && EntryText(text, key, value)
    ensures EntryLine(pad + (lead + text), |pad|, key, value)
  {
    Assoc(pad, lead, text);
  }

  lemma ReadEntryIsWritten(line: string, indent: nat, key: string, value: Option<string>)
    requires NoBreaks(line) && Classify(line) == Entry(indent, key, value)
    ensures LegalKey(key) && EntryLine(line, indent, key, value)
  {
    ClassifyLegal(line);
    var pad, body := Indentation(line);
    if body == "" {
      BlankLineSkipped(line);
    } else {
      ReadBody(pad, body, indent, key, value);
      var lead, r := BodyLead(body);
      ReadSplitIsWritten(indent, Strip(body), r, key, value);
      Assembled(pad, lead, Strip(body) + r, key, value);
    }
  }

  lemma BodyLead(body: string) returns (lead: string, r: string)
    requires body != ""
    ensures body == lead + (Strip(body) + r) && AllSpace(lead) && AllSpace(r) && Trimmed(Strip(body))
    ensures lead == "" || lead[0] == body[0]
  {
    lead, r := StripSplits(body);
    Assoc(lead, Strip(body), r);
    assert forall i :: 0 <= i < |lead| ==> lead[i] == body[i];
  }

  lemma Indentation(line: string) returns (pad: string, body: string)
    ensures line == pad + body && AllBlank(pad) && AllSpace(pad) && (body == "" || body[0] != ' ')
    ensures body == "" ==> AllSpace(line)
  {
    LeadingBlanksSpec(line);
    pad, body := line[..LeadingBlanks(line)], line[LeadingBlanks(line)..];
  }

  /** What is read as an entry is exactly what is written as one. */
  lemma EntryExactly(line: string, indent: nat, key: string, value: Option<string>)
    requires NoBreaks(line)
    ensures Classify(line) == Entry(indent, key, value) <==> LegalKey(key) && EntryLine(line, indent, key, value)
  {
    if Classify(line) == Entry(indent, key, value) {
      ReadEntryIsWritten(line, indent, key, value);
    }
    if LegalKey(key) && EntryLine(line, indent, key, value) {
      EntryLineIsRead(line, indent, key, value);
    }
  }

  // ---- Lines that are not entries ----

  /** The first character that is not a blank is a tab. */
  ghost predicate TabFirst(line: string) {
    exists n :: 0 <= n < |line| && AllBlank(line[..n]) && line[n] == '\t'
  }

  /** A line of content: neither blank nor a comment. */
  predicate HasContent(line: string) {
    Strip(line) != "" && Strip(line)[0] != '#'
  }

  lemma TabFirstBody(line: string, pad: string, body: string)
    requires line == pad + body && AllBlank(pad) && body != "" && body[0] != ' '
    ensures TabFirst(line) <==> body[0] == '\t'
  {
    assert line[..|pad|] == pad && line[|pad|] == body[0];
    if TabFirst(line) {
      var n :| 0 <= n < |line| && AllBlank(line[..n]) && line[n] == '\t';
      assert forall k :: 0 <= k < |pad| ==> line[k] == pad[k];
      assert forall k :: 0 <= k < n ==> line[k] == line[..n][k];
      assert n == |pad|;
    }
  }

  lemma SplitRefusals(indent: nat, content: string)
    requires content != "" && Trimmed(content)
    ensures SplitEntry(indent, content) == Malformed(NoSeparator) <==> ':' !in content
    ensures SplitEntry(indent, content) == Malformed(EmptyKey) <==> content[0] == ':'
    ensures SplitEntry(indent, content).Malformed? ==> SplitEntry(indent, content).kind in {NoSeparator, EmptyKey}
    ensures !SplitEntry(indent, content).Skipped?
  {
    var c := ColonIndex(content);
    ColonIndexSpec(content);
    var gap := KeyAndGap(content[..c]);
    assert c > 0 ==> content[..c][0] == content[0];
  }

  lemma StripOfPadded(pad: string, body: string)
    requires AllSpace(pad)
    ensures Strip(pad + body) == Strip(body)
  {
    var l, r := StripSplits(body);
    StripUnique(pad + l, Strip(body), r);
    assert pad + l + Strip(body) + r == pad + body;
  }

  /** Why a line is skipped or refused, from its text alone. */
  lemma LineRefusals(line: string)
    ensures Classify(line) == Skipped <==> !HasContent(line)
    ensures Classify(line) == Malformed(TabIndentation) <==> HasContent(line) && TabFirst(line)
    ensures Classify(line) == Malformed(SequenceItem) <==>
            HasContent(line) && !TabFirst(line) && Strip(line)[0] == '-'
    ensures Classify(line) == Malformed(NoSeparator) <==>
            HasContent(line) && !TabFirst(line) && Strip(line)[0] != '-' && ':' !in Strip(line)
    ensures Classify(line) == Malformed(EmptyKey) <==>
            HasContent(line) && !TabFirst(line) && Strip(line)[0] == ':'
  {
    var pad, body := Indentation(line);
    StripOfPadded(pad, body);
    if body == "" {
      BlankLineSkipped(line);
      BlankIsAllSpace(line);
    } else {
      ClassifyPadded(pad, body);
      TabFirstBody(line, pad, body);
      if Strip(body) != "" {
        var _, _ := StripSplits(body);
        SplitRefusals(|pad|, Strip(body));
      }
    }
  }
}
