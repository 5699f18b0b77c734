/** Whole texts of the YAML subset: exactly which are accepted, as which mapping, and why the others
    are refused (config/yaml_mapping.py). */
module YamlTexts {
  import opened Text
  import opened YamlMapping
  import opened YamlProperties
  import opened YamlGrammar

  // ---- A mapping written out, line by line ----

  ghost predicate PairLines(lines: seq<string>, width: nat, entries: seq<(string, string)>) {
    |lines| == |entries|
    && forall i :: 0 <= i < |lines| ==> EntryLine(lines[i], width, entries[i].0, Some(entries[i].1))
  }

  /** One top-level entry: a single line, or a header and the section's entries at one indentation. */
  ghost predicate Block(lines: seq<string>, width: nat, key: string, node: Node) {
    match node
    case Scalar(text) => |lines| == 1 && EntryLine(lines[0], 0, key, Some(text))
    case Section(entries) =>
      lines != [] && EntryLine(lines[0], 0, key, None) && PairLines(lines[1..], width, entries)
  }

  ghost predicate Blocks(blocks: seq<seq<string>>, widths: seq<nat>, m: Mapping) {
    |blocks| == |widths| == |m|
    && forall i :: 0 <= i < |m| ==> widths[i] > 0 && Block(blocks[i], widths[i], m[i].0, m[i].1)
  }

  function Flatten(blocks: seq<seq<string>>): seq<string> {
    if blocks == [] then [] else Flatten(blocks[..|blocks| - 1]) + blocks[|blocks| - 1]
  }

  /** `lines` write `m`, each section at some indentation of its own. */
  ghost predicate Writes(lines: seq<string>, m: Mapping) {
    exists blocks: seq<seq<string>>, widths: seq<nat> :: Blocks(blocks, widths, m) && lines == Flatten(blocks)
  }

  function Content(lines: seq<string>): seq<string> {
    if lines == [] then []
    else
      var last := lines[|lines| - 1];
      Content(lines[..|lines| - 1]) + (if HasContent(last) then [last] else [])
  }

  // ---- What is written is read ----

  lemma {:induction false} RunOne(st: State, line: string, number: nat)
    requires st.Valid()
    ensures var step := Advance(st, Classify(line));
            Run(st, [line], number) == if step.Stop? then Failure(number, step.kind) else Done(step.state)
  {
    assert [line][1..] == [];
  }

  lemma LegalPrefix(entries: seq<(string, string)>, n: nat)
    requires LegalSection(entries) && n < |entries|
    ensures LegalSection(entries[..n]) && !HasKey(entries[..n], entries[n].0)
    ensures LegalKey(entries[n].0)
  {
  }

  lemma {:induction false} RunPairs(root: Mapping, key: string, lines: seq<string>, width: nat,
                                    entries: seq<(string, string)>, number: nat)
    requires width > 0 && PairLines(lines, width, entries) && LegalSection(entries)
    ensures Run(State(root + [(key, Section([]))], true, None), lines, number) ==
            Done(State(root + [(key, Section(entries))], true, if entries == [] then None else Some(width)))
    decreases |lines|
  {
    if lines == [] {
    } else {
      var n := |lines| - 1;
      var start := State(root + [(key, Section([]))], true, None);
      var k, v := entries[n].0, entries[n].1;
      LegalPrefix(entries, n);
      RunPairs(root, key, lines[..n], width, entries[..n], number);
      EntryLineIsRead(lines[n], width, k, Some(v));
      RunAppend(start, lines[..n], [lines[n]], number);
      assert lines == lines[..n] + [lines[n]];
      var st := State(root + [(key, Section(entries[..n]))], true, if entries[..n] == [] then None else Some(width));
      RunOne(st, lines[n], number + n);
      AddLast(root, key, entries, n);
    }
  }

  lemma AddLast(root: Mapping, key: string, entries: seq<(string, string)>, n: nat)
    requires n + 1 == |entries|
    ensures AddToLast(root + [(key, Section(entries[..n]))], entries[n].0, entries[n].1) ==
            root + [(key, Section(entries))]
  {
    assert entries == entries[..n] + [(entries[n].0, entries[n].1)];
  }

  lemma {:induction false} RunBlock(st: State, lines: seq<string>, width: nat, key: string, node: Node, number: nat)
    requires st.Valid() && width > 0 && Block(lines, width, key, node)
    requires LegalKey(key) && LegalNode(node) && !HasKey(st.root, key)
    ensures var r := Run(st, lines, number); r.Done? && r.state.root == st.root + [(key, node)]
  {
    match node
    case Scalar(text) =>
      EntryLineIsRead(lines[0], 0, key, Some(text));
      assert lines == [lines[0]];
      RunOne(st, lines[0], number);
    case Section(entries) =>
      EntryLineIsRead(lines[0], 0, key, None);
      RunPairs(st.root, key, lines[1..], width, entries, number + 1);
  }

  lemma PrintablePrefix(m: Mapping, n: nat)
    requires Printable(m) && n < |m|
    ensures Printable(m[..n]) && !HasKey(m[..n], m[n].0) && LegalKey(m[n].0) && LegalNode(m[n].1)
  {
  }

  lemma AppendBlock(front: seq<string>, block: seq<string>, width: nat, root: Mapping, key: string, node: Node)
    requires ParseLines(front) == Parsed(root) && width > 0 && Block(block, width, key, node)
    requires LegalKey(key) && LegalNode(node) && !HasKey(root, key)
    ensures ParseLines(front + block) == Parsed(root + [(key, node)])
  {
    var st := Run(START, front, 1).state;
    RunBlock(st, block, width, key, node, 1 + |front|);
    RunOnto(START, front, st, block, Run(st, block, 1 + |front|).state);
  }

  lemma {:induction false} RunOnto(start: State, a: seq<string>, middle: State, b: seq<string>, end: State)
    requires start.Valid() && middle.Valid()
    requires Run(start, a, 1) == Done(middle) && Run(middle, b, 1 + |a|) == Done(end)
    ensures Run(start, a + b, 1) == Done(end)
  {
    RunAppend(start, a, b, 1);
  }

  lemma BlocksPrefix(blocks: seq<seq<string>>, widths: seq<nat>, m: Mapping, n: nat)
    requires Blocks(blocks, widths, m) && n < |m|
    ensures Blocks(blocks[..n], widths[..n], m[..n])
  {
  }

  lemma {:induction false} WrittenIsRead(blocks: seq<seq<string>>, widths: seq<nat>, m: Mapping)
    requires Blocks(blocks, widths, m) && Printable(m)
    ensures ParseLines(Flatten(blocks)) == Parsed(m)
    decreases |blocks|
  {
    if blocks == [] {
      assert m == [];
    } else {
      var n := |m| - 1;
      PrintablePrefix(m, n);
      BlocksPrefix(blocks, widths, m, n);
      WrittenIsRead(blocks[..n], widths[..n], m[..n]);
      AppendBlock(Flatten(blocks[..n]), blocks[n], widths[n], m[..n], m[n].0, m[n].1);
      assert m == m[..n] + [(m[n].0, m[n].1)];
    }
  }

  // ---- What is read is written ----

  /** What the reader remembers of the content lines: the text itself says whether a section is open
      and at which indentation. */
  ghost predicate Remembers(st: State, blocks: seq<seq<string>>, widths: seq<nat>) {
    && Blocks(blocks, widths, st.root)
    && (st.open <==> st.root != [] && st.root[|st.root| - 1].1.Section?)
    && (st.open ==>
          st.indent == if st.root[|st.root| - 1].1.entries == [] then None else Some(widths[|widths| - 1]))
  }

  lemma TopLevelStep(st: State, blocks: seq<seq<string>>, widths: seq<nat>, line: string, key: string,
                     value: Option<string>)
    requires st.Valid() && Remembers(st, blocks, widths) && EntryLine(line, 0, key, value)
    requires Advance(st, Entry(0, key, value)).Next?
    ensures Remembers(Advance(st, Entry(0, key, value)).state, blocks + [[line]], widths + [1])
  {
    assert [line][1..] == [];
  }

  lemma BlocksUpdate(blocks: seq<seq<string>>, widths: seq<nat>, m: Mapping, block: seq<string>, width: nat, node: Node)
    requires Blocks(blocks, widths, m) && m != [] && width > 0 && Block(block, width, m[|m| - 1].0, node)
    ensures var n := |m| - 1; Blocks(blocks[n := block], widths[n := width], m[n := (m[n].0, node)])
  {
  }

  lemma BlockGrows(block: seq<string>, width: nat, key: string, entries: seq<(string, string)>, line: string,
                   indent: nat, k: string, v: string)
    requires Block(block, width, key, Section(entries)) && (entries == [] || width == indent)
    requires EntryLine(line, indent, k, Some(v))
    ensures Block(block + [line], indent, key, Section(entries + [(k, v)]))
  {
    assert (block + [line])[1..] == block[1..] + [line];
  }

  lemma NestedStep(st: State, blocks: seq<seq<string>>, widths: seq<nat>, line: string, indent: nat, key: string,
                   value: Option<string>)
    requires st.Valid() && Remembers(st, blocks, widths) && EntryLine(line, indent, key, value) && indent > 0
    requires Advance(st, Entry(indent, key, value)).Next?
    ensures var n := |blocks| - 1;
            n >= 0 && Remembers(Advance(st, Entry(indent, key, value)).state,
                                blocks[n := blocks[n] + [line]], widths[n := indent])
  {
    var n := |blocks| - 1;
    var entries := st.root[n].1.entries;
    BlockGrows(blocks[n], widths[n], st.root[n].0, entries, line, indent, key, value.value);
    BlocksUpdate(blocks, widths, st.root, blocks[n] + [line], indent, Section(entries + [(key, value.value)]));
  }

  lemma FlattenMore(blocks: seq<seq<string>>, line: string)
    ensures Flatten(blocks + [[line]]) == Flatten(blocks) + [line]
    ensures blocks != [] ==>
              var n := |blocks| - 1; Flatten(blocks[n := blocks[n] + [line]]) == Flatten(blocks) + [line]
  {
    assert (blocks + [[line]])[..|blocks|] == blocks;
    if blocks != [] {
      var n := |blocks| - 1;
      assert blocks[n := blocks[n] + [line]][..n] == blocks[..n];
    }
  }

  lemma {:induction false} RunMore(lines: seq<string>, line: string)
    ensures var front := Run(START, lines, 1);
            if front.Failure? then Run(START, lines + [line], 1) == front
            else
              var step := Advance(front.state, Classify(line));
              Run(START, lines + [line], 1) ==
              if step.Stop? then Failure(|lines| + 1, step.kind) else Done(step.state)
  {
    RunAppend(START, lines, [line], 1);
    if Run(START, lines, 1).Done? {
      RunOne(Run(START, lines, 1).state, line, |lines| + 1);
    }
  }

  lemma {:induction false} RunSnoc(lines: seq<string>)
    requires lines != []
    ensures var front := Run(START, lines[..|lines| - 1], 1);
            if front.Failure? then Run(START, lines, 1) == front
            else
              var step := Advance(front.state, Classify(lines[|lines| - 1]));
              Run(START, lines, 1) == if step.Stop? then Failure(|lines|, step.kind) else Done(step.state)
  {
    var n := |lines| - 1;
    assert lines == lines[..n] + [lines[n]];
    RunMore(lines[..n], lines[n]);
  }

  lemma ReadStep(st: State, blocks: seq<seq<string>>, widths: seq<nat>, line: string)
    returns (blocks': seq<seq<string>>, widths': seq<nat>)
    requires st.Valid() && Remembers(st, blocks, widths) && NoBreaks(line)
    requires Advance(st, Classify(line)).Next?
    ensures Remembers(Advance(st, Classify(line)).state, blocks', widths')
    ensures Flatten(blocks') == Flatten(blocks) + if HasContent(line) then [line] else []
  {
    blocks', widths' := blocks, widths;
    LineRefusals(line);
    match Classify(line)
    case Skipped =>
      Empty(Flatten(blocks));
    case Malformed(_) =>
    case Entry(indent, key, value) =>
      ReadEntryIsWritten(line, indent, key, value);
      FlattenMore(blocks, line);
      if indent == 0 {
        TopLevelStep(st, blocks, widths, line, key, value);
        blocks', widths' := blocks + [[line]], widths + [1];
      } else {
        NestedStep(st, blocks, widths, line, indent, key, value);
        var last := |blocks| - 1;
        blocks', widths' := blocks[last := blocks[last] + [line]], widths[last := indent];
      }
  }

  lemma {:induction false} ReadIsWritten(lines: seq<string>) returns (blocks: seq<seq<string>>, widths: seq<nat>)
    requires forall i :: 0 <= i < |lines| ==> NoBreaks(lines[i])
    requires Run(START, lines, 1).Done?
    ensures Remembers(Run(START, lines, 1).state, blocks, widths) && Flatten(blocks) == Content(lines)
    decreases |lines|
  {
    if lines == [] {
      blocks, widths := [], [];
    } else {
      var n := |lines| - 1;
      RunSnoc(lines);
      blocks, widths := ReadIsWritten(lines[..n]);
      blocks, widths := ReadStep(Run(START, lines[..n], 1).state, blocks, widths, lines[n]);
    }
  }

  lemma {:induction false} ContentRead(lines: seq<string>)
    ensures ParseLines(lines).Parsed? <==> ParseLines(Content(lines)).Parsed?
    ensures ParseLines(lines).Parsed? ==> Run(START, Content(lines), 1) == Run(START, lines, 1)
    decreases |lines|
  {
    if lines == [] {
    } else {
      var n := |lines| - 1;
      ContentRead(lines[..n]);
      RunSnoc(lines);
      LineRefusals(lines[n]);
      if HasContent(lines[n]) {
        RunSnoc(Content(lines));
        assert Content(lines)[..|Content(lines)| - 1] == Content(lines[..n]);
      } else {
        assert Content(lines) == Content(lines[..n]);
      }
    }
  }

  lemma PrintableResult(lines: seq<string>)
    requires forall i :: 0 <= i < |lines| ==> NoBreaks(lines[i])
    ensures ParseLines(lines).Parsed? ==> Printable(ParseLines(lines).mapping)
  {
    RunPrintable(START, lines, 1);
  }

  /** The accepted lines and what they are read as: exactly the printable mappings written out, any blank and
      comment lines aside. */
  lemma {:induction false} GrammarExactly(lines: seq<string>, m: Mapping)
    requires forall i :: 0 <= i < |lines| ==> NoBreaks(lines[i])
    ensures ParseLines(lines) == Parsed(m) <==> Printable(m) && Writes(Content(lines), m)
  {
    ContentRead(lines);
    if ParseLines(lines) == Parsed(m) {
      PrintableResult(lines);
      var blocks, widths := ReadIsWritten(lines);
    }
    if Printable(m) && Writes(Content(lines), m) {
      var blocks: seq<seq<string>>, widths: seq<nat> :|
        Blocks(blocks, widths, m) && Content(lines) == Flatten(blocks);
      WrittenIsRead(blocks, widths, m);
    }
  }

  /** The same for a whole text. */
  lemma {:induction false} TextExactly(text: string, m: Mapping)
    ensures Parse(text) == Parsed(m) <==> Printable(m) && Writes(Content(SplitLines(text)), m)
  {
    SplitLinesNoBreaks(text);
    GrammarExactly(SplitLines(text), m);
  }

  // ---- Why a line is refused ----

  /** The indentation of the last content line. */
  function LastIndent(lines: seq<string>): nat {
    var content := Content(lines);
    if content == [] then 0 else LeadingBlanks(content[|content| - 1])
  }

  /** The section being filled when the lines so far were read as `m`. */
  predicate Open(m: Mapping) {
    m != [] && m[|m| - 1].1.Section?
  }

  /** Whether an entry may stand at this indentation inside the open section. */
  predicate Fits(m: Mapping, last: nat, indent: nat)
    requires Open(m)
  {
    m[|m| - 1].1.entries == [] || indent == last
  }

  ghost predicate EntryRefused(m: Mapping, last: nat, indent: nat, key: string, value: Option<string>, kind: ErrorKind) {
    if indent == 0 then kind == DuplicateKey && HasKey(m, key)
    else if !Open(m) then kind == NoParentSection
    else if !Fits(m, last, indent) then kind == InconsistentIndentation
    else if value.None? then kind == NestedTooDeep
    else kind == DuplicateSectionKey && HasKey(m[|m| - 1].1.entries, key)
  }

  /** Why `line` cannot follow lines read as `m`, the last of them indented by `last`. */
  ghost predicate Refused(m: Mapping, last: nat, line: string, kind: ErrorKind) {
    && HasContent(line)
    && if TabFirst(line) then kind == TabIndentation
       else if Strip(line)[0] == '-' then kind == SequenceItem
       else if ':' !in Strip(line) then kind == NoSeparator
       else if Strip(line)[0] == ':' then kind == EmptyKey
       else exists indent: nat, key: string, value: Option<string> ::
              LegalKey(key) && EntryLine(line, indent, key, value) && EntryRefused(m, last, indent, key, value, kind)
  }

  lemma {:induction false} EntryIndent(line: string)
    requires Classify(line).Entry?
    ensures Classify(line).indent == LeadingBlanks(line)
  {
    LeadingBlanksRStrip(line);
  }

  lemma LastIndentStep(lines: seq<string>)
    requires lines != []
    ensures var n := |lines| - 1;
            LastIndent(lines) == if HasContent(lines[n]) then LeadingBlanks(lines[n]) else LastIndent(lines[..n])
  {
    var n := |lines| - 1;
    Empty(Content(lines[..n]));
  }

  /** The state is what the mapping and the last indentation say. */
  ghost predicate Agrees(st: State, last: nat) {
    && (st.open <==> Open(st.root))
    && (st.open ==> st.indent == if st.root[|st.root| - 1].1.entries == [] then None else Some(last))
  }

  lemma {:induction false} AgreesStep(st: State, last: nat, line: string)
    requires st.Valid() && Agrees(st, last) && Advance(st, Classify(line)).Next?
    ensures Agrees(Advance(st, Classify(line)).state, if HasContent(line) then LeadingBlanks(line) else last)
  {
    LineRefusals(line);
    match Classify(line)
    case Skipped =>
    case Malformed(_) =>
    case Entry(indent, key, value) =>
      EntryIndent(line);
      AgreesEntry(st, last, indent, key, value);
  }

  lemma AgreesEntry(st: State, last: nat, indent: nat, key: string, value: Option<string>)
    requires st.Valid() && Agrees(st, last) && Advance(st, Entry(indent, key, value)).Next?
    ensures Agrees(Advance(st, Entry(indent, key, value)).state, indent)
  {
  }

  /** The reader's memory, from the text: the open section and the indentation of its entries. */
  lemma {:induction false} StateOfText(lines: seq<string>)
    requires Run(START, lines, 1).Done?
    ensures Agrees(Run(START, lines, 1).state, LastIndent(lines))
    decreases |lines|
  {
    if lines == [] {
    } else {
      var n := |lines| - 1;
      RunSnoc(lines);
      StateOfText(lines[..n]);
      LastIndentStep(lines);
      AgreesStep(Run(START, lines[..n], 1).state, LastIndent(lines[..n]), lines[n]);
    }
  }

  lemma StopExactly(st: State, last: nat, indent: nat, key: string, value: Option<string>, kind: ErrorKind)
    requires st.Valid() && Agrees(st, last)
    ensures Advance(st, Entry(indent, key, value)) == Stop(kind)
            <==> EntryRefused(st.root, last, indent, key, value, kind)
  {
  }

  lemma RefusedExactly(line: string, st: State, last: nat, kind: ErrorKind)
    requires NoBreaks(line) && st.Valid() && Agrees(st, last)
    ensures Advance(st, Classify(line)) == Stop(kind) <==> Refused(st.root, last, line, kind)
  {
    LineRefusals(line);
    match Classify(line)
    case Skipped =>
    case Malformed(_) =>
    case Entry(indent, key, value) =>
      StopExactly(st, last, indent, key, value, kind);
      ReadEntryIsWritten(line, indent, key, value);
      forall indent': nat, key': string, value': Option<string> | LegalKey(key') && EntryLine(line, indent', key', value')
        ensures indent' == indent && key' == key && value' == value
      {
        EntryLineIsRead(line, indent', key', value');
      }
  }

  /** After accepted lines, the next line is refused with exactly the error its text and the mapping read so far
      call for, and accepted otherwise. */
  lemma ErrorExactly(lines: seq<string>, line: string, kind: ErrorKind)
    requires ParseLines(lines).Parsed? && NoBreaks(line)
    ensures ParseLines(lines + [line]) == Failed(|lines| + 1, kind)
            <==> Refused(ParseLines(lines).mapping, LastIndent(lines), line, kind)
    ensures ParseLines(lines + [line]).Parsed? <==>
            forall k :: !Refused(ParseLines(lines).mapping, LastIndent(lines), line, k)
  {
    var st := Run(START, lines, 1).state;
    RunMore(lines, line);
    StateOfText(lines);
    forall k ensures Advance(st, Classify(line)) == Stop(k) <==> Refused(st.root, LastIndent(lines), line, k) {
      RefusedExactly(line, st, LastIndent(lines), k);
    }
  }
}
