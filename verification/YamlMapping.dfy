/** The YAML-subset reader for city profiles (config/yaml_mapping.py). */
module YamlMapping {
  import opened Text

  datatype Node = Scalar(text: string) | Section(entries: seq<(string, string)>)

  /** A Python dict keeps insertion order, so a mapping is its entries in order. */
  type Mapping = seq<(string, Node)>

  datatype ErrorKind =
    | TabIndentation
    | SequenceItem
    | NoSeparator
    | EmptyKey
    | DuplicateKey
    | NoParentSection
    | InconsistentIndentation
    | NestedTooDeep
    | DuplicateSectionKey

  datatype ParseResult = Parsed(mapping: Mapping) | Failed(line: nat, kind: ErrorKind)

  // ---- One line on its own ----

  datatype Line =
    | Skipped
    | Malformed(kind: ErrorKind)
    | Entry(indent: nat, key: string, value: Option<string>)

  function LeadingBlanks(s: string): (n: nat)
    ensures n <= |s|
  {
    if s != "" && s[0] == ' ' then 1 + LeadingBlanks(s[1..]) else 0
  }

  function ColonIndex(s: string): (n: nat)
    ensures n <= |s|
  {
    if s == "" || s[0] == ':' then 0 else 1 + ColonIndex(s[1..])
  }

  lemma {:induction false} LeadingBlanksSpec(s: string)
    ensures forall i :: 0 <= i < LeadingBlanks(s) ==> s[i] == ' '
    ensures LeadingBlanks(s) < |s| ==> s[LeadingBlanks(s)] != ' '
  {
    if s == "" || s[0] != ' ' {
    } else {
      LeadingBlanksSpec(s[1..]);
      assert forall i :: 1 <= i < LeadingBlanks(s) ==> s[i] == s[1..][i - 1];
    }
  }

  lemma {:induction false} ColonIndexSpec(s: string)
    ensures forall i :: 0 <= i < ColonIndex(s) ==> s[i] != ':'
    ensures ColonIndex(s) < |s| ==> s[ColonIndex(s)] == ':'
  {
    if s == "" || s[0] == ':' {
    } else {
      ColonIndexSpec(s[1..]);
      assert forall i :: 1 <= i < ColonIndex(s) ==> s[i] == s[1..][i - 1];
    }
  }

  function Unquote(v: string): string {
    if |v| >= 2 && v[0] == v[|v| - 1] && (v[0] == '\'' || v[0] == '"') then v[1..|v| - 1] else v
  }

  /** `key: value` split at the first colon; no text after it means a section header. */
  function SplitEntry(indent: nat, content: string): Line {
    var n := ColonIndex(content);
    if n == |content| then Malformed(NoSeparator)
    else
      var key := Strip(content[..n]);
      var value := Strip(content[n + 1..]);
      if key == "" then Malformed(EmptyKey)
      else Entry(indent, key, if value == "" then None else Some(Unquote(value)))
  }

  function Classify(raw: string): Line {
    var line := RStrip(raw);
    var content := Strip(line);
    if content == "" || content[0] == '#' then Skipped
    else
      var indent := LeadingBlanks(line);
      if indent < |line| && line[indent] == '\t' then Malformed(TabIndentation)
      else if content[0] == '-' then Malformed(SequenceItem)
      else SplitEntry(indent, content)
  }

  // ---- The state machine over lines ----

  /** `open`: the section being filled is the last entry of `root`. */
  datatype State = State(root: Mapping, open: bool, indent: Option<nat>) {
    ghost predicate Valid() {
      open ==> root != [] && root[|root| - 1].1.Section?
    }
  }

  datatype Step = Next(state: State) | Stop(kind: ErrorKind)

  predicate HasKey<V>(entries: seq<(string, V)>, key: string) {
    exists i :: 0 <= i < |entries| && entries[i].0 == key
  }

  function AddToLast(root: Mapping, key: string, value: string): Mapping
    requires root != [] && root[|root| - 1].1.Section?
  {
    var last := root[|root| - 1];
    root[|root| - 1 := (last.0, Section(last.1.entries + [(key, value)]))]
  }

  function Advance(st: State, line: Line): (r: Step)
    requires st.Valid()
    ensures r.Next? ==> r.state.Valid()
  {
    match line
    case Skipped => Next(st)
    case Malformed(kind) => Stop(kind)
    case Entry(indent, key, value) =>
      if indent == 0 then
        if HasKey(st.root, key) then Stop(DuplicateKey)
        else if value.None? then Next(State(st.root + [(key, Section([]))], true, None))
        else Next(State(st.root + [(key, Scalar(value.value))], false, None))
      else if !st.open then Stop(NoParentSection)
      else if st.indent.Some? && st.indent.value != indent then Stop(InconsistentIndentation)
      else if value.None? then Stop(NestedTooDeep)
      else if HasKey(st.root[|st.root| - 1].1.entries, key) then Stop(DuplicateSectionKey)
      else Next(State(AddToLast(st.root, key, value.value), true, Some(indent)))
  }

  datatype Outcome = Done(state: State) | Failure(line: nat, kind: ErrorKind)

  /** Lines read from state `st`; the first of them carries number `number`. */
  function Run(st: State, lines: seq<string>, number: nat): (r: Outcome)
    requires st.Valid()
    ensures r.Done? ==> r.state.Valid()
    decreases |lines|
  {
    if lines == [] then Done(st)
    else
      match Advance(st, Classify(lines[0]))
      case Stop(kind) => Failure(number, kind)
      case Next(st') => Run(st', lines[1..], number + 1)
  }

  const START := State([], false, None)

  function Report(outcome: Outcome): ParseResult {
    match outcome
    case Done(st) => Parsed(st.root)
    case Failure(line, kind) => Failed(line, kind)
  }

  function ParseLines(lines: seq<string>): ParseResult {
    Report(Run(START, lines, 1))
  }

  function Parse(text: string): ParseResult {
    ParseLines(SplitLines(text))
  }

  lemma RunStep(st: State, lines: seq<string>, i: nat)
    requires st.Valid() && i < |lines|
    ensures Run(st, lines[i..], i + 1) ==
            match Advance(st, Classify(lines[i]))
            case Stop(kind) => Failure(i + 1, kind)
            case Next(st') => Run(st', lines[i + 1..], i + 2)
  {
    assert lines[i..][1..] == lines[i + 1..];
  }

  /** What the lines from the i-th on lead to when the first `i` were read into `st`. */
  function Onward(st: State, lines: seq<string>, i: nat): ParseResult
    requires st.Valid() && i <= |lines|
  {
    Report(Run(st, lines[i..], i + 1))
  }

  lemma OnwardStep(st: State, lines: seq<string>, i: nat, step: Step)
    requires st.Valid() && i < |lines| && step == Advance(st, Classify(lines[i]))
    ensures step.Stop? ==> Onward(st, lines, i) == Failed(i + 1, step.kind)
    ensures step.Next? ==> step.state.Valid() && Onward(st, lines, i) == Onward(step.state, lines, i + 1)
  {
    RunStep(st, lines, i);
  }

  lemma OnwardEnds(st: State, lines: seq<string>)
    requires st.Valid()
    ensures Onward(START, lines, 0) == ParseLines(lines)
    ensures Onward(st, lines, |lines|) == Parsed(st.root)
  {
    assert lines[0..] == lines && lines[|lines|..] == [];
  }

  /** The part of the loop body that looks at one line only. */
  method ReadLine(raw: string) returns (line: Line)
    ensures line == Classify(raw)
  {
    var stripped := RStrip(raw);
    var content := Strip(stripped);
    if content == "" || content[0] == '#' {
      return Skipped;
    }
    var indent := LeadingBlanks(stripped);
    if indent < |stripped| && stripped[indent] == '\t' {
      return Malformed(TabIndentation);
    }
    if content[0] == '-' {
      return Malformed(SequenceItem);
    }
    return SplitEntry(indent, content);
  }

  /** The loop of `parse_yaml_mapping`, with its own local state. */
  method ParseYamlMapping(text: string) returns (result: ParseResult)
    ensures result == Parse(text)
  {
    var root: Mapping := [];
    var sectionOpen := false;
    var sectionIndent: Option<nat> := None;
    var lines := SplitLines(text);
    OnwardEnds(START, lines);
    for i := 0 to |lines|
      invariant State(root, sectionOpen, sectionIndent).Valid()
      invariant Onward(State(root, sectionOpen, sectionIndent), lines, i) == ParseLines(lines)
    {
      ghost var step := Advance(State(root, sectionOpen, sectionIndent), Classify(lines[i]));
      OnwardStep(State(root, sectionOpen, sectionIndent), lines, i, step);
      var number := i + 1;
      var line := ReadLine(lines[i]);
      if line.Skipped? {
        continue;
      }
      if line.Malformed? {
        return Failed(number, line.kind);
      }
      var indent, key, value := line.indent, line.key, line.value;
      if indent == 0 {
        if HasKey(root, key) {
          return Failed(number, DuplicateKey);
        }
        if value.None? {
          root := root + [(key, Section([]))];
          sectionOpen, sectionIndent := true, None;
        } else {
          root := root + [(key, Scalar(value.value))];
          sectionOpen, sectionIndent := false, None;
        }
        continue;
      }
      if !sectionOpen {
        return Failed(number, NoParentSection);
      }
      if sectionIndent.None? {
        sectionIndent := Some(indent);
      } else if indent != sectionIndent.value {
        return Failed(number, InconsistentIndentation);
      }
      if value.None? {
        return Failed(number, NestedTooDeep);
      }
      if HasKey(root[|root| - 1].1.entries, key) {
        return Failed(number, DuplicateSectionKey);
      }
      root := AddToLast(root, key, value.value);
    }
    OnwardEnds(State(root, sectionOpen, sectionIndent), lines);
    result := Parsed(root);
  }
}
