/** What the YAML-subset reader guarantees: round trip, exact outputs, line-level invariants. */
module YamlProperties {
  import opened Text
  import opened YamlMapping

  // ---- Canonical printing ----

  predicate LegalKey(key: string) {
    && key != "" && Trimmed(key) && NoBreaks(key)
    && key[0] != '#' && key[0] != '-'
    && forall i :: 0 <= i < |key| ==> key[i] != ':'
  }

  predicate DistinctKeys<V>(entries: seq<(string, V)>) {
    forall i, j :: 0 <= i < j < |entries| ==> entries[i].0 != entries[j].0
  }

  predicate LegalSection(entries: seq<(string, string)>) {
    && DistinctKeys(entries)
    && forall i :: 0 <= i < |entries| ==> LegalKey(entries[i].0) && NoBreaks(entries[i].1)
  }

  predicate LegalNode(node: Node) {
    match node
    case Scalar(text) => NoBreaks(text)
    case Section(entries) => LegalSection(entries)
  }

  /** Legal, pairwise different keys; values without line boundaries. */
  predicate Printable(m: Mapping) {
    && DistinctKeys(m)
    && forall i :: 0 <= i < |m| ==> LegalKey(m[i].0) && LegalNode(m[i].1)
  }

  function PrintPair(key: string, value: string): string {
    key + ": \"" + value + "\""
  }

  function PrintSection(entries: seq<(string, string)>): seq<string> {
    if entries == [] then []
    else ["  " + PrintPair(entries[0].0, entries[0].1)] + PrintSection(entries[1..])
  }

  function PrintEntry(key: string, node: Node): seq<string> {
    match node
    case Scalar(text) => [PrintPair(key, text)]
    case Section(entries) => [key + ":"] + PrintSection(entries)
  }

  function PrintLines(m: Mapping): seq<string> {
    if m == [] then [] else PrintEntry(m[0].0, m[0].1) + PrintLines(m[1..])
  }

  function Print(m: Mapping): string {
    JoinLines(PrintLines(m))
  }

  // ---- Reading back one printed line ----

  lemma {:induction false} ColonAt(key: string, rest: string)
    requires forall i :: 0 <= i < |key| ==> key[i] != ':'
    ensures ColonIndex(key + ":" + rest) == |key|
  {
    var s := key + ":" + rest;
    assert s[|key|] == ':';
    assert forall i :: 0 <= i < |key| ==> s[i] == key[i];
    ColonIndexSpec(s);
  }

  lemma StripKey(key: string)
    requires LegalKey(key)
    ensures Strip(key) == key
  {
    StripUnique("", key, "");
    assert "" + key + "" == key;
  }

  /** Indentation and content determine a well-formed line. */
  lemma ClassifyIndented(pad: string, content: string)
    requires forall i :: 0 <= i < |pad| ==> pad[i] == ' '
    requires content != "" && Trimmed(content) && content[0] != '#' && content[0] != '-'
    ensures Classify(pad + content) == SplitEntry(|pad|, content)
  {
    var raw := pad + content;
    RStripSpaces(raw, "");
    assert raw + "" == raw;
    StripUnique(pad, content, "");
    assert pad + content + "" == raw;
    assert forall i :: 0 <= i < |pad| ==> raw[i] == ' ';
    assert raw[|pad|] == content[0];
    LeadingBlanksSpec(raw);
    assert LeadingBlanks(raw) == |pad|;
  }

  lemma CutAtColon(key: string, rest: string)
    ensures (key + ":" + rest)[..|key|] == key && (key + ":" + rest)[|key| + 1..] == rest
  {
  }

  lemma SplitPair(indent: nat, key: string, value: string)
    requires LegalKey(key)
    ensures SplitEntry(indent, PrintPair(key, value)) == Entry(indent, key, Some(value))
  {
    var quoted := "\"" + value + "\"";
    assert PrintPair(key, value) == key + ":" + (" " + quoted);
    ColonAt(key, " " + quoted);
    CutAtColon(key, " " + quoted);
    StripKey(key);
    StripUnique(" ", quoted, "");
    assert " " + quoted + "" == " " + quoted;
    assert quoted[1..|quoted| - 1] == value;
  }

  lemma ReadPair(pad: string, key: string, value: string)
    requires forall i :: 0 <= i < |pad| ==> pad[i] == ' '
    requires LegalKey(key)
    ensures Classify(pad + PrintPair(key, value)) == Entry(|pad|, key, Some(value))
  {
    var content := PrintPair(key, value);
    assert content[0] == key[0] && content[|content| - 1] == '"';
    ClassifyIndented(pad, content);
    SplitPair(|pad|, key, value);
  }

  lemma ReadHeader(key: string)
    requires LegalKey(key)
    ensures Classify(key + ":") == Entry(0, key, None)
  {
    var content := key + ":";
    assert content == key + ":" + "";
    ColonAt(key, "");
    assert content[..|key|] == key && content[|key| + 1..] == "";
    StripKey(key);
    ClassifyIndented("", content);
    assert "" + content == content;
  }

  // ---- Running over concatenated lines ----

  lemma {:induction false} RunAppend(st: State, a: seq<string>, b: seq<string>, number: nat)
    requires st.Valid()
    ensures Run(st, a + b, number) ==
            match Run(st, a, number)
            case Done(st') => Run(st', b, number + |a|)
            case Failure(line, kind) => Failure(line, kind)
    decreases |a|
  {
    if a == [] {
      assert a + b == b;
    } else {
      assert (a + b)[0] == a[0] && (a + b)[1..] == a[1..] + b;
      match Advance(st, Classify(a[0]))
      case Stop(_) =>
      case Next(st') => RunAppend(st', a[1..], b, number + 1);
    }
  }

  /** Reading a printed section fills the open section entry by entry. */
  lemma {:induction false} RunSection(root: Mapping, key: string, done: seq<(string, string)>,
                                      todo: seq<(string, string)>, indent: Option<nat>, number: nat)
    requires LegalSection(done + todo)
    requires indent == if done == [] then None else Some(2)
    ensures var st := State(root + [(key, Section(done))], true, indent);
            exists i :: Run(st, PrintSection(todo), number) ==
                        Done(State(root + [(key, Section(done + todo))], true, i))
    decreases |todo|
  {
    var st := State(root + [(key, Section(done))], true, indent);
    if todo == [] {
      assert done + todo == done;
      assert Run(st, PrintSection(todo), number) == Done(State(root + [(key, Section(done + todo))], true, indent));
    } else {
      var k, v := todo[0].0, todo[0].1;
      assert (done + todo)[|done|] == todo[0];
      assert forall i :: 0 <= i < |done| ==> (done + todo)[i] == done[i];
      ReadPair("  ", k, v);
      var done' := done + [(k, v)];
      var st' := State(root + [(key, Section(done'))], true, Some(2));
      assert AddToLast(st.root, k, v) == st'.root;
      assert Advance(st, Entry(2, k, Some(v))) == Next(st');
      assert done' + todo[1..] == done + todo;
      RunSection(root, key, done', todo[1..], Some(2), number + 1);
      var lines := PrintSection(todo);
      assert lines[0] == "  " + PrintPair(k, v) && lines[1..] == PrintSection(todo[1..]);
    }
  }

  lemma {:induction false} RunEntry(st: State, key: string, node: Node, number: nat)
    requires st.Valid() && LegalKey(key) && LegalNode(node) && !HasKey(st.root, key)
    ensures var r := Run(st, PrintEntry(key, node), number);
            r.Done? && r.state.root == st.root + [(key, node)]
  {
    match node
    case Scalar(text) =>
      ReadPair("", key, text);
      assert "" + PrintPair(key, text) == PrintPair(key, text);
      var lines := PrintEntry(key, node);
      assert lines[0] == PrintPair(key, text) && lines[1..] == [];
    case Section(entries) =>
      ReadHeader(key);
      var header := State(st.root + [(key, Section([]))], true, None);
      assert Advance(st, Entry(0, key, None)) == Next(header);
      assert [] + entries == entries;
      RunSection(st.root, key, [], entries, None, number + 1);
      var lines := PrintEntry(key, node);
      assert lines[0] == key + ":" && lines[1..] == PrintSection(entries);
  }

  lemma NextKey(root: Mapping, m: Mapping)
    requires m != [] && Printable(root + m)
    ensures LegalKey(m[0].0) && LegalNode(m[0].1) && !HasKey(root, m[0].0)
    ensures root + [m[0]] + m[1..] == root + m
  {
    assert (root + m)[|root|] == m[0];
    assert forall i :: 0 <= i < |root| ==> (root + m)[i] == root[i];
  }

  lemma {:induction false} RunMapping(st: State, m: Mapping, number: nat)
    requires st.Valid() && Printable(st.root + m)
    ensures var r := Run(st, PrintLines(m), number);
            r.Done? && r.state.root == st.root + m
    decreases |m|
  {
    if m == [] {
      Empty(st.root);
    } else {
      var head, tail := PrintEntry(m[0].0, m[0].1), PrintLines(m[1..]);
      NextKey(st.root, m);
      assert Run(st, head, number).Done? && Run(st, head, number).state.root == st.root + [m[0]] by {
        RunEntry(st, m[0].0, m[0].1, number);
        assert m[0] == (m[0].0, m[0].1);
      }
      RunAppend(st, head, tail, number);
      RunMapping(Run(st, head, number).state, m[1..], number + |head|);
    }
  }

  lemma {:induction false} PrintSectionNoBreaks(entries: seq<(string, string)>)
    requires forall i :: 0 <= i < |entries| ==> NoBreaks(entries[i].0) && NoBreaks(entries[i].1)
    ensures forall i :: 0 <= i < |PrintSection(entries)| ==> NoBreaks(PrintSection(entries)[i])
  {
    if entries == [] {
    } else {
      PrintSectionNoBreaks(entries[1..]);
    }
  }

  lemma {:induction false} PrintLinesNoBreaks(m: Mapping)
    requires forall i :: 0 <= i < |m| ==> LegalKey(m[i].0) && LegalNode(m[i].1)
    ensures forall i :: 0 <= i < |PrintLines(m)| ==> NoBreaks(PrintLines(m)[i])
  {
    if m == [] {
    } else {
      if m[0].1.Section? {
        PrintSectionNoBreaks(m[0].1.entries);
      }
      PrintLinesNoBreaks(m[1..]);
    }
  }

  /** Round trip: reading the canonical printing of a printable mapping returns it,
      key order and empty sections included. */
  lemma RoundTrip(m: Mapping)
    requires Printable(m)
    ensures Parse(Print(m)) == Parsed(m)
  {
    PrintLinesNoBreaks(m);
    SplitJoin(PrintLines(m));
    assert START.root + m == m;
    RunMapping(START, m, 1);
  }

  // ---- The reader's outputs are exactly the printable mappings ----

  lemma NoBreaksPart(s: string, lo: nat, hi: nat)
    requires NoBreaks(s) && lo <= hi <= |s|
    ensures NoBreaks(s[lo..hi])
  {
  }

  lemma StripNoBreaks(s: string)
    requires NoBreaks(s)
    ensures NoBreaks(Strip(s))
  {
    var l, r := StripSplits(s);
    assert Strip(s) == s[|l|..|s| - |r|];
    NoBreaksPart(s, |l|, |s| - |r|);
  }

  lemma KeyPartLegal(content: string, n: nat)
    requires content != "" && Trimmed(content) && NoBreaks(content)
    requires content[0] != '#' && content[0] != '-'
    requires n <= |content| && forall i :: 0 <= i < n ==> content[i] != ':'
    ensures var key := Strip(content[..n]); key != "" ==> LegalKey(key)
  {
    var before := content[..n];
    NoBreaksPart(content, 0, n);
    if before != "" {
      var key := Strip(before);
      StripNoBreaks(before);
      StripKeepsHead(before);
      var _, _ := StripSplits(before);
      assert key[0] == content[0];
      assert forall i :: 0 <= i < |key| ==> key[i] == before[i];
    }
  }

  lemma ValuePartLegal(after: string)
    requires NoBreaks(after)
    ensures NoBreaks(Unquote(Strip(after)))
  {
    StripNoBreaks(after);
    var value := Strip(after);
    if |value| >= 2 {
      NoBreaksPart(value, 1, |value| - 1);
    }
  }

  lemma SplitEntryLegal(indent: nat, content: string)
    requires content != "" && Trimmed(content) && NoBreaks(content)
    requires content[0] != '#' && content[0] != '-'
    ensures match SplitEntry(indent, content)
            case Entry(i, key, value) =>
              i == indent && LegalKey(key) && (value.Some? ==> NoBreaks(value.value))
            case Malformed(_) => true
            case Skipped => false
  {
    var n := ColonIndex(content);
    ColonIndexSpec(content);
    KeyPartLegal(content, n);
    if n < |content| {
      NoBreaksPart(content, n + 1, |content|);
      ValuePartLegal(content[n + 1..]);
    }
  }

  lemma ClassifyLegal(raw: string)
    requires NoBreaks(raw)
    ensures match Classify(raw)
            case Entry(_, key, value) => LegalKey(key) && (value.Some? ==> NoBreaks(value.value))
            case _ => true
  {
    var r := RStripSplits(raw);
    var line := RStrip(raw);
    assert line == raw[..|line|];
    NoBreaksPart(raw, 0, |line|);
    StripNoBreaks(line);
    var content := Strip(line);
    if content != "" && content[0] != '#' && content[0] != '-' {
      var _, _ := StripSplits(line);
      SplitEntryLegal(LeadingBlanks(line), content);
    }
  }

  lemma AddToLastPrintable(root: Mapping, key: string, value: string)
    requires Printable(root) && root != [] && root[|root| - 1].1.Section?
    requires LegalKey(key) && NoBreaks(value) && !HasKey(root[|root| - 1].1.entries, key)
    ensures Printable(AddToLast(root, key, value))
  {
    var old_ := root[|root| - 1].1.entries;
    var new_ := old_ + [(key, value)];
    assert LegalSection(new_) by {
      assert LegalNode(root[|root| - 1].1);
    }
  }

  lemma AdvancePrintable(st: State, raw: string)
    requires st.Valid() && Printable(st.root) && NoBreaks(raw)
    ensures var r := Advance(st, Classify(raw)); r.Next? ==> Printable(r.state.root)
  {
    ClassifyLegal(raw);
    match Classify(raw)
    case Entry(indent, key, value) =>
      if Advance(st, Classify(raw)).Next? && indent != 0 {
        AddToLastPrintable(st.root, key, value.value);
      }
    case _ =>
  }

  lemma {:induction false} RunPrintable(st: State, lines: seq<string>, number: nat)
    requires st.Valid() && Printable(st.root)
    requires forall i :: 0 <= i < |lines| ==> NoBreaks(lines[i])
    ensures var r := Run(st, lines, number); r.Done? ==> Printable(r.state.root)
    decreases |lines|
  {
    if lines == [] {
    } else {
      AdvancePrintable(st, lines[0]);
      match Advance(st, Classify(lines[0]))
      case Stop(_) =>
      case Next(st') => RunPrintable(st', lines[1..], number + 1);
    }
  }

  lemma ParsePrintable(text: string)
    ensures Parse(text).Parsed? ==> Printable(Parse(text).mapping)
  {
    SplitLinesNoBreaks(text);
    RunPrintable(START, SplitLines(text), 1);
  }

  /** A mapping can come out of the reader exactly when it is printable. */
  lemma ParseImage(m: Mapping)
    ensures Printable(m) <==> exists text :: Parse(text) == Parsed(m)
  {
    if Printable(m) {
      RoundTrip(m);
    }
    forall text | Parse(text) == Parsed(m) ensures Printable(m) {
      ParsePrintable(text);
    }
  }

  /** Printing what was read and reading it again changes nothing. */
  lemma ParsePrintParse(text: string)
    requires Parse(text).Parsed?
    ensures Parse(Print(Parse(text).mapping)) == Parse(text)
  {
    ParsePrintable(text);
    RoundTrip(Parse(text).mapping);
  }

  // ---- Line-level invariants ----

  /** Comment and blank lines may be inserted anywhere: the mapping stays, and an
      error stays the same error on the same line of content. */
  lemma SkippedLineInsertion(above: seq<string>, skipped: string, below: seq<string>)
    requires Classify(skipped).Skipped?
    ensures ParseLines(above + [skipped] + below) ==
            match ParseLines(above + below)
            case Parsed(m) => Parsed(m)
            case Failed(line, kind) => Failed(if line <= |above| then line else line + 1, kind)
  {
    assert above + [skipped] + below == above + ([skipped] + below);
    RunAppend(START, above, [skipped] + below, 1);
    RunAppend(START, above, below, 1);
    match Run(START, above, 1)
    case Done(st) =>
      assert ([skipped] + below)[1..] == below;
      RunShift(st, below, 1 + |above|, 2 + |above|);
    case Failure(line, _) =>
      FailureLine(START, above, 1);
  }

  lemma {:induction false} RunShift(st: State, lines: seq<string>, from: nat, to: nat)
    requires st.Valid()
    ensures match Run(st, lines, from)
            case Done(st') => Run(st, lines, to) == Done(st')
            case Failure(line, kind) => from <= line && Run(st, lines, to) == Failure(to + (line - from), kind)
    decreases |lines|
  {
    if lines == [] {
    } else {
      match Advance(st, Classify(lines[0]))
      case Stop(_) =>
      case Next(st') => RunShift(st', lines[1..], from + 1, to + 1);
    }
  }

  lemma {:induction false} FailureLine(st: State, lines: seq<string>, number: nat)
    requires st.Valid()
    ensures var r := Run(st, lines, number); r.Failure? ==> number <= r.line < number + |lines|
    decreases |lines|
  {
    if lines == [] {
    } else {
      match Advance(st, Classify(lines[0]))
      case Stop(_) =>
      case Next(st') => FailureLine(st', lines[1..], number + 1);
    }
  }

  lemma {:induction false} StopsAtOnce(st: State, lines: seq<string>, n: nat, kind: ErrorKind)
    requires st.Valid() && Run(st, lines, n) == Failure(n, kind)
    ensures lines != [] && Advance(st, Classify(lines[0])) == Stop(kind)
  {
    match Advance(st, Classify(lines[0]))
    case Stop(_) =>
    case Next(st') => FailureLine(st', lines[1..], n + 1);
  }

  lemma ErrorBetween(good: seq<string>, rest: seq<string>, kind: ErrorKind)
    requires ParseLines(good + rest) == Failed(|good| + 1, kind)
    ensures rest != [] && ParseLines(good).Parsed?
    ensures ParseLines(good + [rest[0]]) == Failed(|good| + 1, kind)
  {
    RunAppend(START, good, rest, 1);
    FailureLine(START, good, 1);
    var st := Run(START, good, 1).state;
    StopsAtOnce(st, rest, |good| + 1, kind);
    RunAppend(START, good, [rest[0]], 1);
  }

  /** The reported line is the first one at which reading cannot go on. */
  lemma FirstErrorWins(lines: seq<string>, n: nat, kind: ErrorKind)
    requires ParseLines(lines) == Failed(n, kind)
    ensures 1 <= n <= |lines|
    ensures ParseLines(lines[..n - 1]).Parsed?
    ensures ParseLines(lines[..n]) == Failed(n, kind)
  {
    FailureLine(START, lines, 1);
    var good, rest := lines[..n - 1], lines[n - 1..];
    assert lines == good + rest;
    ErrorBetween(good, rest, kind);
    assert lines[..n] == good + [rest[0]];
  }

  /** `m` is what was read of `whole` so far: leading entries, the last one possibly a partly filled section. */
  predicate SubMapping(m: Mapping, whole: Mapping) {
    && |m| <= |whole|
    && (forall i :: 0 <= i < |m| ==> m[i].0 == whole[i].0)
    && (forall i :: 0 <= i < |m| - 1 ==> m[i].1 == whole[i].1)
    && (m != [] ==>
          var n, w := m[|m| - 1].1, whole[|m| - 1].1;
          n == w || (n.Section? && w.Section? && n.entries <= w.entries))
  }

  lemma SubMappingTransitive(a: Mapping, b: Mapping, c: Mapping)
    requires SubMapping(a, b) && SubMapping(b, c)
    ensures SubMapping(a, c)
  {
  }

  lemma AdvanceGrows(st: State, line: Line)
    requires st.Valid()
    ensures var r := Advance(st, line); r.Next? ==> SubMapping(st.root, r.state.root)
  {
  }

  lemma {:induction false} RunGrows(st: State, lines: seq<string>, number: nat)
    requires st.Valid()
    ensures var r := Run(st, lines, number); r.Done? ==> SubMapping(st.root, r.state.root)
    decreases |lines|
  {
    if lines == [] {
    } else {
      AdvanceGrows(st, Classify(lines[0]));
      match Advance(st, Classify(lines[0]))
      case Stop(_) =>
      case Next(st') =>
        RunGrows(st', lines[1..], number + 1);
        if Run(st, lines, number).Done? {
          SubMappingTransitive(st.root, st'.root, Run(st, lines, number).state.root);
        }
    }
  }

  /** Every line-prefix of an accepted text is accepted, with a sub-mapping as result. */
  lemma PrefixAccepted(lines: seq<string>, n: nat)
    requires n <= |lines| && ParseLines(lines).Parsed?
    ensures ParseLines(lines[..n]).Parsed?
    ensures SubMapping(ParseLines(lines[..n]).mapping, ParseLines(lines).mapping)
  {
    assert lines == lines[..n] + lines[n..];
    RunAppend(START, lines[..n], lines[n..], 1);
    RunGrows(Run(START, lines[..n], 1).state, lines[n..], 1 + n);
  }

  function ContentLines(lines: seq<string>): nat {
    if lines == [] then 0
    else (if Classify(lines[0]).Skipped? then 0 else 1) + ContentLines(lines[1..])
  }

  function Size(m: Mapping): nat {
    if m == [] then 0
    else Size(m[..|m| - 1]) + 1 + match m[|m| - 1].1 case Scalar(_) => 0 case Section(es) => |es|
  }

  lemma {:induction false} SizeGrows(root: Mapping, key: string, node: Node, value: string)
    ensures Size(root + [(key, node)]) == Size(root) + 1 + match node case Scalar(_) => 0 case Section(es) => |es|
    ensures root != [] && root[|root| - 1].1.Section? ==>
              Size(AddToLast(root, key, value)) == Size(root) + 1
  {
    assert (root + [(key, node)])[..|root|] == root;
    if root != [] && root[|root| - 1].1.Section? {
      assert AddToLast(root, key, value)[..|root| - 1] == root[..|root| - 1];
    }
  }

  lemma AdvanceCounts(st: State, line: Line)
    requires st.Valid()
    ensures var r := Advance(st, line);
            r.Next? ==> Size(r.state.root) == Size(st.root) + if line.Skipped? then 0 else 1
  {
    if line.Entry? {
      if line.value.None? {
        SizeGrows(st.root, line.key, Section([]), "");
      } else {
        SizeGrows(st.root, line.key, Scalar(line.value.value), line.value.value);
      }
    }
  }

  lemma {:induction false} RunCounts(st: State, lines: seq<string>, number: nat)
    requires st.Valid()
    ensures var r := Run(st, lines, number);
            r.Done? ==> Size(r.state.root) == Size(st.root) + ContentLines(lines)
    decreases |lines|
  {
    if lines == [] {
    } else {
      AdvanceCounts(st, Classify(lines[0]));
      match Advance(st, Classify(lines[0]))
      case Stop(_) =>
      case Next(st') => RunCounts(st', lines[1..], number + 1);
    }
  }

  /** Nothing is merged or dropped: one content line per top-level key and per section entry. */
  lemma {:induction false} OneEntryPerContentLine(lines: seq<string>)
    requires ParseLines(lines).Parsed?
    ensures ContentLines(lines) == Size(ParseLines(lines).mapping)
  {
    RunCounts(START, lines, 1);
  }

  // ---- Re-indentation ----

  function Blanks(n: nat): string {
    if n == 0 then "" else [' '] + Blanks(n - 1)
  }

  lemma {:induction false} BlanksAre(n: nat)
    ensures |Blanks(n)| == n && forall i :: 0 <= i < n ==> Blanks(n)[i] == ' '
  {
    if n == 0 {
    } else {
      BlanksAre(n - 1);
    }
  }

  /** Entries below the k-th top-level line get indentation `width(k)`. */
  function Reindent(lines: seq<string>, width: nat -> nat, k: nat): seq<string> {
    if lines == [] then []
    else
      var line := Classify(lines[0]);
      if line.Entry? && line.indent == 0 then [lines[0]] + Reindent(lines[1..], width, k + 1)
      else if line.Entry? then
        [Blanks(width(k)) + lines[0][LeadingBlanks(lines[0])..]] + Reindent(lines[1..], width, k)
      else [lines[0]] + Reindent(lines[1..], width, k)
  }

  lemma {:induction false} LeadingBlanksRStrip(raw: string)
    requires Strip(RStrip(raw)) != ""
    ensures LeadingBlanks(raw) == LeadingBlanks(RStrip(raw)) < |RStrip(raw)|
  {
    var r := RStripSplits(raw);
    var line := RStrip(raw);
    assert line != "" by { assert line == "" ==> Strip(line) == ""; }
    var n := LeadingBlanks(line);
    LeadingBlanksSpec(line);
    LeadingBlanksSpec(raw);
    assert n < |line| by { assert line[|line| - 1] != ' '; }
    assert forall i :: 0 <= i < |line| ==> raw[i] == line[i];
  }

  lemma {:induction false} RStripOfStrip(raw: string, l: string, content: string, r: string)
    requires raw == l + content + r && AllSpace(l) && AllSpace(r) && Trimmed(content)
    ensures Strip(RStrip(raw)) == content
  {
    StripUnique(l, content, r);
    var _ := RStripSplits(raw);
    RStripSpaces(RStrip(raw), "");
    assert RStrip(raw) + "" == RStrip(raw);
  }

  lemma {:induction false} StripPadded(pad: string, body: string)
    requires forall i :: 0 <= i < |pad| ==> pad[i] == ' '
    ensures Strip(RStrip(pad + body)) == Strip(body)
  {
    var l, r := StripSplits(body);
    Assoc(pad, l, Strip(body));
    Assoc(pad, l + Strip(body), r);
    RStripOfStrip(pad + body, pad + l, Strip(body), r);
  }

  /** A line is its padding width and the text after it. */
  lemma ClassifyPadded(pad: string, body: string)
    requires forall i :: 0 <= i < |pad| ==> pad[i] == ' '
    requires body != "" && body[0] != ' '
    ensures Strip(body) != "" ==>
              Classify(pad + body) ==
              if Strip(body)[0] == '#' then Skipped
              else if body[0] == '\t' then Malformed(TabIndentation)
              else if Strip(body)[0] == '-' then Malformed(SequenceItem)
              else SplitEntry(|pad|, Strip(body))
    ensures Strip(body) == "" ==> Classify(pad + body) == Skipped
  {
    var raw := pad + body;
    StripPadded(pad, body);
    if Strip(body) != "" {
      LeadingBlanksRStrip(raw);
      assert forall i :: 0 <= i < |pad| ==> raw[i] == ' ';
      assert raw[|pad|] == body[0];
      LeadingBlanksSpec(raw);
      assert LeadingBlanks(raw) == |pad|;
      var r := RStripSplits(raw);
      assert (RStrip(raw) + r)[|pad|] == RStrip(raw)[|pad|];
    }
  }

  /** Only the width of the indentation is read, not the rest of the padding. */
  lemma {:induction false} ReindentedLine(raw: string, width: nat)
    requires Classify(raw).Entry? && width > 0
    ensures var line := Classify(raw);
            Classify(Blanks(width) + raw[LeadingBlanks(raw)..]) == Entry(width, line.key, line.value)
  {
    LeadingBlanksRStrip(raw);
    var r := RStripSplits(raw);
    var n := LeadingBlanks(raw);
    LeadingBlanksSpec(raw);
    var pad, body := raw[..n], raw[n..];
    assert raw == pad + body;
    BlanksAre(width);
    ClassifyPadded(pad, body);
    ClassifyPadded(Blanks(width), body);
  }

  /** The same state up to the indentation of the section being filled. */
  ghost predicate SameUpToIndent(st: State, st': State, width: nat) {
    && st.root == st'.root && st.open == st'.open
    && st'.indent == if st.indent.None? then None else Some(width)
  }

  lemma AdvanceReindented(st: State, st': State, line: Line, width: nat, width': nat)
    requires st.Valid() && st'.Valid() && SameUpToIndent(st, st', width) && width > 0
    requires Advance(st, line).Next?
    requires (line.Entry? && line.indent == 0) || width' == width
    ensures var line' := if line.Entry? && line.indent > 0 then Entry(width, line.key, line.value) else line;
            var r := Advance(st', line');
            r.Next? && SameUpToIndent(Advance(st, line).state, r.state, width')
  {
  }

  lemma {:induction false} RunReindented(st: State, st': State, lines: seq<string>, width: nat -> nat, k: nat,
                                         number: nat)
    requires st.Valid() && st'.Valid() && SameUpToIndent(st, st', width(k))
    requires forall j :: width(j) > 0
    requires Run(st, lines, number).Done?
    ensures var r := Run(st', Reindent(lines, width, k), number);
            r.Done? && r.state.root == Run(st, lines, number).state.root
    decreases |lines|
  {
    if lines == [] {
    } else {
      var line := Classify(lines[0]);
      var k' := if line.Entry? && line.indent == 0 then k + 1 else k;
      var lines' := Reindent(lines, width, k);
      assert lines'[1..] == Reindent(lines[1..], width, k');
      if line.Entry? && line.indent > 0 {
        ReindentedLine(lines[0], width(k));
      }
      AdvanceReindented(st, st', line, width(k), width(k'));
      RunReindented(Advance(st, line).state, Advance(st', Classify(lines'[0])).state, lines[1..], width, k', number + 1);
    }
  }

  /** Re-indenting each section uniformly, to any positive widths, leaves the mapping unchanged. */
  lemma {:induction false} ReindentInvariant(lines: seq<string>, width: nat -> nat)
    requires ParseLines(lines).Parsed?
    requires forall j :: width(j) > 0
    ensures ParseLines(Reindent(lines, width, 0)) == ParseLines(lines)
  {
    RunReindented(START, START, lines, width, 0, 1);
  }
}
