/**
 The Prometheus text line parser: `parseLine` of orchestrator/src/metrics/parseLine.ts,
 a character machine over twelve states.
 The format it reads is the Prometheus text exposition format 0.0.4, section "Text format details".
 */
module LineParser {
  import opened Wrappers
  import opened OrderedMap

  datatype Mode =
    | Name | StartOfLabelName | EndOfName | Value | EndOfLabels | LabelName
    | LabelValueQuote | LabelValueEquals | LabelValue | LabelValueSlash | NextLabel | Timestamp

  datatype ParseError = InvalidLine

  type Labels = Entries<string, string>

  /** What a line parses to. */
  datatype Sample = Sample(name: string, labels: Labels, value: string, timestamp: Option<string>)

  /** The local variables of the source. */
  datatype Parser = Parser(
    mode: Mode, name: string, labelName: string, labelValue: string,
    value: string, timestamp: string, labels: Labels)

  const START := Parser(Name, "", "", "", "", "", [])

  predicate IsBlank(c: char) { c == ' ' || c == '\t' }

  predicate Blanks(s: string) { forall i :: 0 <= i < |s| ==> IsBlank(s[i]) }

  predicate NoBlanks(s: string) { forall i :: 0 <= i < |s| ==> !IsBlank(s[i]) }

  /** One character. */
  function Step(p: Parser, c: char): Result<Parser, ParseError> {
    match p.mode
    case Name =>
      if c == '{' then Ok(p.(mode := StartOfLabelName))
      else if IsBlank(c) then Ok(p.(mode := EndOfName))
      else Ok(p.(name := p.name + [c]))
    case EndOfName =>
      if IsBlank(c) then Ok(p)
      else if c == '{' then Ok(p.(mode := StartOfLabelName))
      else Ok(p.(value := p.value + [c], mode := Value))
    case StartOfLabelName =>
      if IsBlank(c) then Ok(p)
      else if c == '}' then Ok(p.(mode := EndOfLabels))
      else Ok(p.(labelName := p.labelName + [c], mode := LabelName))
    case LabelName =>
      if c == '=' then Ok(p.(mode := LabelValueQuote))
      else if c == '}' then Ok(p.(mode := EndOfLabels))
      else if IsBlank(c) then Ok(p.(mode := LabelValueEquals))
      else Ok(p.(labelName := p.labelName + [c]))
    case LabelValueEquals =>
      if c == '=' then Ok(p.(mode := LabelValueQuote))
      else if IsBlank(c) then Ok(p)
      else Err(InvalidLine)
    case LabelValueQuote =>
      if c == '"' then Ok(p.(mode := LabelValue))
      else if IsBlank(c) then Ok(p)
      else Err(InvalidLine)
    case LabelValue =>
      if c == '\\' then Ok(p.(mode := LabelValueSlash))
      else if c == '"' then
        Ok(p.(labels := Set(p.labels, p.labelName, p.labelValue), labelName := "", labelValue := "", mode := NextLabel))
      else Ok(p.(labelValue := p.labelValue + [c]))
    case LabelValueSlash =>
      Ok(p.(mode := LabelValue, labelValue := p.labelValue + Unescape(c)))
    case NextLabel =>
      if c == ',' then Ok(p.(mode := LabelName))
      else if c == '}' then Ok(p.(mode := EndOfLabels))
      else if IsBlank(c) then Ok(p)
      else Err(InvalidLine)
    case EndOfLabels =>
      if IsBlank(c) then Ok(p)
      else Ok(p.(value := p.value + [c], mode := Value))
    case Value =>
      if IsBlank(c) then Ok(p.(mode := Timestamp))
      else Ok(p.(value := p.value + [c]))
    case Timestamp =>
      if IsBlank(c) then Ok(p)
      else Ok(p.(timestamp := p.timestamp + [c]))
  }

  /** What a backslash followed by `c` stands for; an unknown escape is kept as written. */
  function Unescape(c: char): string {
    if c == '\\' then "\\" else if c == 'n' then "\n" else if c == '"' then "\"" else ['\\', c]
  }

  function Run(p: Parser, s: string): Result<Parser, ParseError>
    decreases |s|
  {
    if s == "" then Ok(p)
    else
      var q :- Step(p, s[0]);
      Run(q, s[1..])
  }

  function Finish(p: Parser): Sample {
    Sample(p.name, p.labels, p.value, if p.timestamp == "" then None else Some(p.timestamp))
  }

  function Parse(line: string): Result<Sample, ParseError> {
    var p :- Run(START, line);
    Ok(Finish(p))
  }

  // ---- the source

  /**
   The source's loop over characters.
   Every printed sample is read back, every sample read is one that prints back to itself, and the
   outcome is the machine's.
   */
  method ParseLine(line: string) returns (r: Result<Sample, ParseError>)
    ensures r == Parse(line)
    ensures forall s :: WellFormed(s) && line == Print(s) ==> r == Ok(s)
    ensures r.Ok? ==> WellFormed(r.value)
  {
    var name, labelName, labelValue, value, timestamp := "", "", "", "", "";
    var labels: Labels := [];
    var state := Name;
    var c := 0;
    PrintedLineParses(line);
    while c < |line|
      invariant 0 <= c <= |line|
      invariant Run(START, line) ==
                Run(Parser(state, name, labelName, labelValue, value, timestamp, labels), line[c..])
    {
      var ch := line[c];
      if state == Name {
        if ch == '{' {
          state := StartOfLabelName;
        } else if IsBlank(ch) {
          state := EndOfName;
        } else {
          name := name + [ch];
        }
      } else if state == EndOfName {
        if IsBlank(ch) {
        } else if ch == '{' {
          state := StartOfLabelName;
        } else {
          value := value + [ch];
          state := Value;
        }
      } else if state == StartOfLabelName {
        if IsBlank(ch) {
        } else if ch == '}' {
          state := EndOfLabels;
        } else {
          labelName := labelName + [ch];
          state := LabelName;
        }
      } else if state == LabelName {
        if ch == '=' {
          state := LabelValueQuote;
        } else if ch == '}' {
          state := EndOfLabels;
        } else if IsBlank(ch) {
          state := LabelValueEquals;
        } else {
          labelName := labelName + [ch];
        }
      } else if state == LabelValueEquals {
        if ch == '=' {
          state := LabelValueQuote;
        } else if !IsBlank(ch) {
          return Err(InvalidLine);
        }
      } else if state == LabelValueQuote {
        if ch == '"' {
          state := LabelValue;
        } else if !IsBlank(ch) {
          return Err(InvalidLine);
        }
      } else if state == LabelValue {
        if ch == '\\' {
          state := LabelValueSlash;
        } else if ch == '"' {
          labels := Set(labels, labelName, labelValue);
          labelName, labelValue := "", "";
          state := NextLabel;
        } else {
          labelValue := labelValue + [ch];
        }
      } else if state == LabelValueSlash {
        state := LabelValue;
        if ch == '\\' {
          labelValue := labelValue + "\\";
        } else if ch == 'n' {
          labelValue := labelValue + "\n";
        } else if ch == '"' {
          labelValue := labelValue + "\"";
        } else {
          labelValue := labelValue + ['\\', ch];
        }
      } else if state == NextLabel {
        if ch == ',' {
          state := LabelName;
        } else if ch == '}' {
          state := EndOfLabels;
        } else if !IsBlank(ch) {
          return Err(InvalidLine);
        }
      } else if state == EndOfLabels {
        if !IsBlank(ch) {
          value := value + [ch];
          state := Value;
        }
      } else if state == Value {
        if IsBlank(ch) {
          state := Timestamp;
        } else {
          value := value + [ch];
        }
      } else {
        if !IsBlank(ch) {
          timestamp := timestamp + [ch];
        }
      }
      c := c + 1;
    }
    return Ok(Sample(name, labels, value, if timestamp == "" then None else Some(timestamp)));
  }

  // ---- printing, and which samples survive it

  function EscapeChar(c: char): string {
    if c == '\\' then "\\\\" else if c == '"' then "\\\"" else if c == '\n' then "\\n" else [c]
  }

  function Escape(s: string): string {
    if s == "" then "" else EscapeChar(s[0]) + Escape(s[1..])
  }

  /**
   Where a printer may put blanks, and what it may put between the last label and the closing brace: a
   comma, with a label name that has no value, or with blanks.
   */
  datatype Layout = Layout(
    beforeBrace: string, afterBrace: string, beforeEquals: string, afterEquals: string,
    afterQuote: string, afterComma: string, trailing: string,
    beforeValue: string, beforeTimestamp: string, end: string)

  predicate IsLayout(l: Layout) {
    && Blanks(l.beforeBrace) && Blanks(l.afterBrace) && Blanks(l.beforeEquals) && Blanks(l.afterEquals)
    && Blanks(l.afterQuote) && Blanks(l.afterComma) && Blanks(l.beforeValue)
    && Blanks(l.beforeTimestamp) && l.beforeTimestamp != "" && Blanks(l.end)
    && (l.trailing != "" ==> l.trailing[0] == ',' && (LabelNameText(l.trailing[1..]) || Blanks(l.trailing[1..])))
  }

  /** No blanks stand between a trailing comma and the brace. */
  predicate TrailingFine(l: Layout) {
    l.trailing != "" ==> NoBlanks(l.trailing)
  }

  const PLAIN := Layout("", "", "", "", "", "", "", " ", " ", "")

  function PrintLabel(pair: (string, string), l: Layout): string {
    pair.0 + l.beforeEquals + "=" + l.afterEquals + "\"" + Escape(pair.1) + "\"" + l.afterQuote
  }

  /** What follows the first label, up to the closing brace. */
  function PrintMoreLabels(labels: Labels, l: Layout): string {
    if labels == [] then l.trailing + "}"
    else "," + l.afterComma + PrintLabel(labels[0], l) + PrintMoreLabels(labels[1..], l)
  }

  function PrintLabels(labels: Labels, l: Layout): string {
    if labels == [] then "}" else PrintLabel(labels[0], l) + PrintMoreLabels(labels[1..], l)
  }

  function PrintTimestamp(timestamp: Option<string>, l: Layout): string {
    if timestamp.None? then "" else l.beforeTimestamp + timestamp.value
  }

  /** A sample with its braces. */
  function PrintWith(s: Sample, l: Layout): string {
    s.name + l.beforeBrace + "{" + l.afterBrace + PrintLabels(s.labels, l) +
    l.beforeValue + s.value + PrintTimestamp(s.timestamp, l) + l.end
  }

  /** A sample without labels and without braces. */
  function PrintBare(s: Sample, l: Layout): string {
    s.name + l.beforeValue + s.value + PrintTimestamp(s.timestamp, l) + l.end
  }

  function Print(s: Sample): string { PrintWith(s, PLAIN) }

  predicate NameText(s: string) { NoBlanks(s) && '{' !in s }

  predicate LabelNameText(s: string) { NoBlanks(s) && '=' !in s && '}' !in s }

  /** The first label's name is read from its first character on, so that one may even be `=`. */
  predicate FirstLabelNameText(s: string) {
    s != "" && !IsBlank(s[0]) && s[0] != '}' && LabelNameText(s[1..])
  }

  /** The samples `parseLine` can return. */
  ghost predicate WellFormed(s: Sample) {
    && NameText(s.name)
    && LabelsText(s.labels)
    && NoBlanks(s.value)
    && (s.timestamp.Some? ==> s.value != "" && s.timestamp.value != "" && NoBlanks(s.timestamp.value))
  }

  ghost predicate LabelsText(labels: Labels) {
    && DistinctKeys(labels)
    && (labels != [] ==> FirstLabelNameText(labels[0].0))
    && forall i :: 1 <= i < |labels| ==> LabelNameText(labels[i].0)
  }

  // ---- running over the pieces of a printed line

  lemma {:induction false} RunAppend(p: Parser, a: string, b: string)
    ensures Run(p, a + b) == if Run(p, a).Ok? then Run(Run(p, a).value, b) else Run(p, a)
    decreases |a|
  {
    if a == "" {
      assert a + b == b;
    } else {
      assert (a + b)[1..] == a[1..] + b;
      var q := Step(p, a[0]);
      if q.Ok? {
        RunAppend(q.value, a[1..], b);
      }
    }
  }

  predicate SkipsBlanks(m: Mode) {
    m in {EndOfName, StartOfLabelName, LabelValueEquals, LabelValueQuote, NextLabel, EndOfLabels, Timestamp}
  }

  lemma {:induction false} RunBlanks(p: Parser, s: string)
    requires SkipsBlanks(p.mode) && Blanks(s)
    ensures Run(p, s) == Ok(p)
  {
    if s != "" {
      RunBlanks(p, s[1..]);
    }
  }

  /** Blanks whose first one changes the state. */
  lemma RunIntoBlanks(p: Parser, q: Parser, s: string)
    requires s != "" && Blanks(s) && Step(p, s[0]) == Ok(q) && SkipsBlanks(q.mode)
    ensures Run(p, s) == Ok(q)
  {
    RunBlanks(q, s[1..]);
  }

  lemma {:induction false} RunName(p: Parser, s: string)
    requires p.mode == Name && NameText(s)
    ensures Run(p, s) == Ok(p.(name := p.name + s))
    decreases |s|
  {
    if s == "" {
      assert p.name + s == p.name;
    } else {
      assert p.name + [s[0]] + s[1..] == p.name + s;
      RunName(p.(name := p.name + [s[0]]), s[1..]);
    }
  }

  lemma {:induction false} RunLabelName(p: Parser, s: string)
    requires p.mode == LabelName && LabelNameText(s)
    ensures Run(p, s) == Ok(p.(labelName := p.labelName + s))
    decreases |s|
  {
    if s == "" {
      assert p.labelName + s == p.labelName;
    } else {
      assert p.labelName + [s[0]] + s[1..] == p.labelName + s;
      RunLabelName(p.(labelName := p.labelName + [s[0]]), s[1..]);
    }
  }

  lemma {:induction false} RunEscaped(p: Parser, s: string)
    requires p.mode == LabelValue
    ensures Run(p, Escape(s)) == Ok(p.(labelValue := p.labelValue + s))
    decreases |s|
  {
    if s == "" {
      assert p.labelValue + s == p.labelValue;
    } else {
      var head, tail := EscapeChar(s[0]), Escape(s[1..]);
      var q := p.(labelValue := p.labelValue + [s[0]]);
      assert q.labelValue + s[1..] == p.labelValue + s;
      RunEscaped(q, s[1..]);
      RunEscapedChar(p, s[0]);
      RunAppend(p, head, tail);
      assert Escape(s) == head + tail;
    }
  }

  lemma RunEscapedChar(p: Parser, c: char)
    requires p.mode == LabelValue
    ensures Run(p, EscapeChar(c)) == Ok(p.(labelValue := p.labelValue + [c]))
  {
    var e := EscapeChar(c);
    if |e| == 2 {
      RunAppend(p, [e[0]], [e[1]]);
      assert e == [e[0]] + [e[1]];
    }
  }

  lemma {:induction false} RunValue(p: Parser, s: string)
    requires p.mode == Value && NoBlanks(s)
    ensures Run(p, s) == Ok(p.(value := p.value + s))
    decreases |s|
  {
    if s == "" {
      assert p.value + s == p.value;
    } else {
      assert p.value + [s[0]] + s[1..] == p.value + s;
      RunValue(p.(value := p.value + [s[0]]), s[1..]);
    }
  }

  lemma {:induction false} RunTimestamp(p: Parser, s: string)
    requires p.mode == Timestamp && NoBlanks(s)
    ensures Run(p, s) == Ok(p.(timestamp := p.timestamp + s))
    decreases |s|
  {
    if s == "" {
      assert p.timestamp + s == p.timestamp;
    } else {
      assert p.timestamp + [s[0]] + s[1..] == p.timestamp + s;
      RunTimestamp(p.(timestamp := p.timestamp + [s[0]]), s[1..]);
    }
  }

  /** From just after a label's name to the end of the label. */
  lemma RunAfterName(p: Parser, q: Parser, pair: (string, string), l: Layout)
    requires IsLayout(l) && Run(p, pair.0) == Ok(q)
    requires q.mode in {LabelName, LabelValueEquals} && q.labelName == pair.0 && q.labelValue == ""
    ensures Run(p, PrintLabel(pair, l)) ==
            Ok(q.(mode := NextLabel, labelName := "", labels := Set(q.labels, pair.0, pair.1)))
  {
    var named := pair.0 + l.beforeEquals + "=";
    RunEquals(p, q, pair.0, l.beforeEquals);
    var q1 := q.(mode := LabelValueQuote);
    RunAppend(p, named, l.afterEquals);
    RunBlanks(q1, l.afterEquals);
    RunAppend(p, named + l.afterEquals, "\"");
    var q2 := q.(mode := LabelValue);
    RunAppend(p, named + l.afterEquals + "\"", Escape(pair.1));
    RunEscaped(q2, pair.1);
    var q3 := q2.(labelValue := pair.1);
    assert q2.labelValue + pair.1 == pair.1;
    RunAppend(p, named + l.afterEquals + "\"" + Escape(pair.1), "\"");
    var q4 := q.(mode := NextLabel, labelName := "", labels := Set(q.labels, pair.0, pair.1));
    RunAppend(p, named + l.afterEquals + "\"" + Escape(pair.1) + "\"", l.afterQuote);
    RunBlanks(q4, l.afterQuote);
  }

  lemma RunEquals(p: Parser, q: Parser, name: string, blanks: string)
    requires Run(p, name) == Ok(q) && q.mode in {LabelName, LabelValueEquals} && Blanks(blanks)
    ensures Run(p, name + blanks + "=") == Ok(q.(mode := LabelValueQuote))
  {
    RunAppend(p, name, blanks);
    RunAppend(p, name + blanks, "=");
    if blanks == "" {
      assert name + blanks == name;
    } else {
      var skipped := q.(mode := LabelValueEquals);
      RunIntoBlanks(q, skipped, blanks);
    }
  }

  /** The label the opening brace leads to. */
  lemma RunFirstLabel(p: Parser, pair: (string, string), l: Layout)
    requires IsLayout(l) && FirstLabelNameText(pair.0)
    requires p.mode == StartOfLabelName && p.labelName == p.labelValue == ""
    ensures Run(p, PrintLabel(pair, l)) == Ok(p.(mode := NextLabel, labels := Set(p.labels, pair.0, pair.1)))
  {
    var q := p.(mode := LabelName, labelName := [pair.0[0]]);
    RunLabelName(q, pair.0[1..]);
    assert [pair.0[0]] + pair.0[1..] == pair.0;
    assert p.labelName + [pair.0[0]] == [pair.0[0]];
    assert Step(p, pair.0[0]) == Ok(q);
    RunAfterName(p, q.(labelName := pair.0), pair, l);
  }

  /** Blanks after a comma are read as the end of an empty label name. */
  predicate CommasFine(labels: Labels, l: Layout) {
    l.afterComma == "" || forall i :: 0 <= i < |labels| ==> labels[i].0 == ""
  }

  /** A label a comma leads to: with blanks after the comma only an empty name gets through. */
  lemma RunNextLabel(p: Parser, pair: (string, string), l: Layout)
    requires IsLayout(l) && LabelNameText(pair.0)
    requires p.mode == NextLabel && p.labelName == p.labelValue == ""
    ensures Run(p, "," + l.afterComma + PrintLabel(pair, l)) ==
            if CommasFine([pair], l) then Ok(p.(labels := Set(p.labels, pair.0, pair.1))) else Err(InvalidLine)
  {
    var q := p.(mode := LabelName);
    RunAppend(p, ",", l.afterComma);
    RunAppend(p, "," + l.afterComma, PrintLabel(pair, l));
    if l.afterComma == "" {
      RunLabelName(q, pair.0);
      assert q.labelName + pair.0 == pair.0;
      RunAfterName(q, q.(labelName := pair.0), pair, l);
    } else {
      var r := p.(mode := LabelValueEquals);
      RunIntoBlanks(q, r, l.afterComma);
      if pair.0 == "" {
        RunAfterName(r, r, pair, l);
        assert [pair][0] == pair;
      } else {
        var text := PrintLabel(pair, l);
        assert text[0] == pair.0[0] && pair.0[0] in pair.0;
        assert Run(r, text) == Err(InvalidLine);
        assert [pair][0].0 != "";
      }
    }
  }

  /** The name of the label without a value, if any. */
  function TrailingName(l: Layout): string { if l.trailing == "" then "" else l.trailing[1..] }

  /** What follows the last label: without blanks it is passed over, with them the line is refused. */
  lemma RunTrailing(p: Parser, l: Layout)
    requires IsLayout(l) && p.mode == NextLabel && p.labelName == ""
    ensures Run(p, l.trailing + "}") ==
            if TrailingFine(l) then Ok(p.(mode := EndOfLabels, labelName := TrailingName(l))) else Err(InvalidLine)
  {
    if l.trailing == "" {
      assert l.trailing + "}" == "}";
    } else {
      var q, t := p.(mode := LabelName), l.trailing[1..];
      assert l.trailing + "}" == "," + (t + "}");
      RunAppend(p, ",", t + "}");
      RunAppend(q, t, "}");
      if TrailingFine(l) {
        RunLabelName(q, t);
        assert q.labelName + t == t;
      } else {
        var r := q.(mode := LabelValueEquals);
        assert Blanks(t) && t != "";
        RunIntoBlanks(q, r, t);
      }
    }
  }

  lemma {:induction false} RunMoreLabels(p: Parser, more: Labels, l: Layout)
    requires IsLayout(l) && p.mode == NextLabel && p.labelName == p.labelValue == ""
    requires p.labels != [] && LabelsText(p.labels + more)
    ensures Run(p, PrintMoreLabels(more, l)) ==
            if CommasFine(more, l) && TrailingFine(l)
            then Ok(p.(mode := EndOfLabels, labels := p.labels + more, labelName := TrailingName(l)))
            else Err(InvalidLine)
    decreases |more|
  {
    if more == [] {
      assert p.labels + more == p.labels;
      RunTrailing(p, l);
    } else {
      assert (p.labels + more)[|p.labels|] == more[0];
      RunNextLabel(p, more[0], l);
      RunAppend(p, "," + l.afterComma + PrintLabel(more[0], l), PrintMoreLabels(more[1..], l));
      NewKey(p.labels, more);
      assert p.labels + [more[0]] + more[1..] == p.labels + more;
      RunMoreLabels(p.(labels := p.labels + [more[0]]), more[1..], l);
      assert CommasFine(more, l) <==> CommasFine([more[0]], l) && CommasFine(more[1..], l) by {
        assert [more[0]][0] == more[0];
      }
    }
  }

  lemma NewKey(done: Labels, more: Labels)
    requires more != [] && DistinctKeys(done + more)
    ensures Set(done, more[0].0, more[0].1) == done + [more[0]]
  {
    assert DistinctKeys(done) by {
      forall i, j | 0 <= i < j < |done| ensures done[i].0 != done[j].0 {
        assert (done + more)[i].0 != (done + more)[j].0;
      }
    }
    SetAt(done, more[0].0, more[0].1);
    forall i | 0 <= i < |done| ensures done[i].0 != more[0].0 {
      assert (done + more)[i].0 != (done + more)[|done|].0;
    }
  }

  lemma RunLabels(p: Parser, labels: Labels, l: Layout)
    requires IsLayout(l) && LabelsText(labels)
    requires p.mode == StartOfLabelName && p.labelName == p.labelValue == "" && p.labels == []
    ensures Run(p, PrintLabels(labels, l)) ==
            if labels == [] then Ok(p.(mode := EndOfLabels))
            else if CommasFine(labels[1..], l) && TrailingFine(l)
            then Ok(p.(mode := EndOfLabels, labels := labels, labelName := TrailingName(l))) else Err(InvalidLine)
  {
    if labels != [] {
      RunFirstLabel(p, labels[0], l);
      RunAppend(p, PrintLabel(labels[0], l), PrintMoreLabels(labels[1..], l));
      assert [labels[0]] + labels[1..] == labels;
      RunMoreLabels(p.(mode := NextLabel, labels := [labels[0]]), labels[1..], l);
    }
  }

  /** Value, timestamp and trailing blanks. */
  lemma RunRest(p: Parser, s: Sample, l: Layout)
    requires IsLayout(l) && WellFormed(s) && p.value == p.timestamp == ""
    requires p.mode == EndOfLabels || (p.mode == EndOfName && (s.value == "" || s.value[0] != '{'))
    ensures var r := Run(p, s.value + PrintTimestamp(s.timestamp, l) + l.end);
            && r.Ok?
            && Finish(r.value) == Sample(p.name, p.labels, s.value, s.timestamp)
  {
    var tail := PrintTimestamp(s.timestamp, l);
    RunAppend(p, s.value + tail, l.end);
    RunAppend(p, s.value, tail);
    if s.value == "" {
      assert s.value + tail == "";
      assert s.value + tail + l.end == l.end;
      RunBlanks(p, l.end);
    } else {
      var q := p.(mode := Value, value := [s.value[0]]);
      assert p.value + [s.value[0]] == [s.value[0]];
      assert Step(p, s.value[0]) == Ok(q);
      RunValue(q, s.value[1..]);
      assert [s.value[0]] + s.value[1..] == s.value;
      RunTail(q.(value := s.value), s.timestamp, l);
    }
  }

  lemma RunTail(p: Parser, timestamp: Option<string>, l: Layout)
    requires IsLayout(l) && p.mode == Value && p.timestamp == ""
    requires timestamp.Some? ==> timestamp.value != "" && NoBlanks(timestamp.value)
    ensures Run(p, PrintTimestamp(timestamp, l)).Ok?
    ensures var r := Run(Run(p, PrintTimestamp(timestamp, l)).value, l.end);
            && r.Ok?
            && Finish(r.value) == Sample(p.name, p.labels, p.value, timestamp)
  {
    var q := p.(mode := Timestamp);
    if timestamp.None? {
      if l.end != "" {
        RunIntoBlanks(p, q, l.end);
      }
    } else {
      RunAppend(p, l.beforeTimestamp, timestamp.value);
      RunIntoBlanks(p, q, l.beforeTimestamp);
      RunTimestamp(q, timestamp.value);
      assert q.timestamp + timestamp.value == timestamp.value;
      RunBlanks(q.(timestamp := timestamp.value), l.end);
    }
  }

  // ---- the round trip

  /**
   Printing with any blanks the format allows and parsing again gives the sample back, name, labels in
   order, value and timestamp, unless blanks follow a comma that a named label or the closing brace
   follows: those lines, which the format allows, are refused. A comma directly before the brace, and a
   label name without a value there, change nothing.
   */
  lemma RoundTrip(s: Sample, l: Layout)
    requires WellFormed(s) && IsLayout(l)
    ensures Parse(PrintWith(s, l)) ==
            if s.labels == [] || (CommasFine(s.labels[1..], l) && TrailingFine(l)) then Ok(s) else Err(InvalidLine)
  {
    var open := s.name + l.beforeBrace + "{" + l.afterBrace;
    RunOpen(s.name, l);
    var p := START.(name := s.name, mode := StartOfLabelName);
    RunAppend(START, open, PrintLabels(s.labels, l));
    RunLabels(p, s.labels, l);
    RunClosed(START, open + PrintLabels(s.labels, l), s, l);
  }

  /** A name and its opening brace. */
  lemma RunOpen(name: string, l: Layout)
    requires NameText(name) && IsLayout(l)
    ensures Run(START, name + l.beforeBrace + "{" + l.afterBrace) ==
            Ok(START.(name := name, mode := StartOfLabelName))
  {
    var p, q := START.(name := name), START.(name := name, mode := EndOfName);
    RunName(START, name);
    assert START.name + name == name;
    RunAppend(START, name, l.beforeBrace);
    RunAppend(START, name + l.beforeBrace, "{");
    RunAppend(START, name + l.beforeBrace + "{", l.afterBrace);
    if l.beforeBrace != "" {
      RunIntoBlanks(p, q, l.beforeBrace);
    }
    RunBlanks(p.(mode := StartOfLabelName), l.afterBrace);
  }

  /** The part of a printed line after its labels. */
  lemma RunClosed(p: Parser, head: string, s: Sample, l: Layout)
    requires IsLayout(l) && WellFormed(s)
    requires Run(p, head).Err? ||
             (Run(p, head).value.mode == EndOfLabels && Run(p, head).value.value == Run(p, head).value.timestamp == "")
    ensures var r := Run(p, head + l.beforeValue + s.value + PrintTimestamp(s.timestamp, l) + l.end);
            if Run(p, head).Err? then r == Run(p, head)
            else && r.Ok?
                 && Finish(r.value) == Sample(Run(p, head).value.name, Run(p, head).value.labels, s.value, s.timestamp)
  {
    var rest := s.value + PrintTimestamp(s.timestamp, l) + l.end;
    assert head + l.beforeValue + s.value + PrintTimestamp(s.timestamp, l) + l.end == head + (l.beforeValue + rest);
    RunAppend(p, head, l.beforeValue + rest);
    if Run(p, head).Ok? {
      var q := Run(p, head).value;
      RunAppend(q, l.beforeValue, rest);
      RunBlanks(q, l.beforeValue);
      RunRest(q, s, l);
    }
  }

  /** Without labels the braces may be left out, unless the value itself starts with a brace. */
  lemma BareRoundTrip(s: Sample, l: Layout)
    requires WellFormed(s) && IsLayout(l) && s.labels == [] && l.beforeValue != ""
    requires s.value == "" || s.value[0] != '{'
    ensures Parse(PrintBare(s, l)) == Ok(s)
  {
    var rest := s.value + PrintTimestamp(s.timestamp, l) + l.end;
    assert PrintBare(s, l) == s.name + (l.beforeValue + rest);
    RunName(START, s.name);
    RunAppend(START, s.name, l.beforeValue + rest);
    var q := START.(name := s.name, mode := EndOfName);
    assert START.name + s.name == s.name;
    RunAppend(START.(name := s.name), l.beforeValue, rest);
    RunIntoBlanks(START.(name := s.name), q, l.beforeValue);
    RunRest(q, s, l);
  }

  // ---- what can come out of the parser

  ghost predicate ReadingLabel(m: Mode) {
    m in {LabelName, LabelValueEquals, LabelValueQuote, LabelValue, LabelValueSlash}
  }

  /** What every reachable state of the machine satisfies. */
  ghost predicate Reached(p: Parser) {
    && NameText(p.name) && LabelsText(p.labels)
    && (ReadingLabel(p.mode) ==> if p.labels == [] then FirstLabelNameText(p.labelName) else LabelNameText(p.labelName))
    && (p.mode in {Name, EndOfName, StartOfLabelName} ==> p.labelName == "" && p.labels == [])
    && (p.mode == NextLabel ==> p.labelName == "" && p.labels != [])
    && NoBlanks(p.value) && (p.value != "" <==> p.mode in {Value, Timestamp})
    && NoBlanks(p.timestamp) && (p.timestamp != "" ==> p.mode == Timestamp)
  }

  lemma StepReaches(p: Parser, c: char)
    requires Reached(p) && Step(p, c).Ok?
    ensures Reached(Step(p, c).value)
  {
    if ReadingLabel(p.mode) || p.mode in {StartOfLabelName, NextLabel} {
      LabelStepReaches(p, c);
    } else {
      PlainStepReaches(p, c);
    }
  }

  lemma LabelStepReaches(p: Parser, c: char)
    requires ReadingLabel(p.mode) || p.mode in {StartOfLabelName, NextLabel}
    requires Reached(p) && Step(p, c).Ok?
    ensures Reached(Step(p, c).value)
  {
    if p.mode == LabelValue {
      LabelSet(p.labels, p.labelName, p.labelValue);
    } else if p.mode == LabelName && p.labels == [] && c !in {'=', '}'} && !IsBlank(c) {
      assert (p.labelName + [c])[1..] == p.labelName[1..] + [c];
    }
  }

  lemma PlainStepReaches(p: Parser, c: char)
    requires p.mode in {Name, EndOfName, EndOfLabels, Value, Timestamp}
    requires Reached(p)
    ensures Step(p, c).Ok? && Reached(Step(p, c).value)
  {
    var q := Step(p, c).value;
    assert q.labels == p.labels && q.labelName == p.labelName && !ReadingLabel(q.mode);
    assert NameText(q.name) && NoBlanks(q.value) && NoBlanks(q.timestamp);
  }

  /** Storing a label keeps the names in order. */
  lemma LabelSet(labels: Labels, name: string, value: string)
    requires LabelsText(labels)
    requires if labels == [] then FirstLabelNameText(name) else LabelNameText(name)
    ensures LabelsText(Set(labels, name, value)) && Set(labels, name, value) != []
  {
    SetAt(labels, name, value);
  }

  lemma {:induction false} RunReaches(p: Parser, s: string)
    requires Reached(p) && Run(p, s).Ok?
    ensures Reached(Run(p, s).value)
    decreases |s|
  {
    if s != "" {
      StepReaches(p, s[0]);
      RunReaches(Step(p, s[0]).value, s[1..]);
    }
  }

  /** Every line the parser accepts normalises: printing what was read and reading it again changes nothing. */
  lemma AcceptedLinesNormalise(line: string)
    requires Parse(line).Ok?
    ensures WellFormed(Parse(line).value)
    ensures Parse(Print(Parse(line).value)) == Parse(line)
  {
    RunReaches(START, line);
    RoundTrip(Parse(line).value, PLAIN);
  }

  /** The samples that survive printing and parsing are exactly the well formed ones. */
  lemma RoundTripIff(s: Sample)
    ensures Parse(Print(s)) == Ok(s) <==> WellFormed(s)
  {
    if WellFormed(s) {
      RoundTrip(s, PLAIN);
    } else if Parse(Print(s)) == Ok(s) {
      AcceptedLinesNormalise(Print(s));
    }
  }

  /** Both directions for one line. */
  lemma PrintedLineParses(line: string)
    ensures forall s :: WellFormed(s) && line == Print(s) ==> Parse(line) == Ok(s)
    ensures Parse(line).Ok? ==> WellFormed(Parse(line).value)
  {
    forall s | WellFormed(s) && line == Print(s) ensures Parse(line) == Ok(s) {
      RoundTripIff(s);
    }
    if Parse(line).Ok? {
      AcceptedLinesNormalise(line);
    }
  }

  // ---- the names the format allows

  predicate LabelNameStart(c: char) { 'a' <= c <= 'z' || 'A' <= c <= 'Z' || c == '_' }

  predicate LabelNameChar(c: char) { LabelNameStart(c) || '0' <= c <= '9' }

  predicate LegalLabelName(s: string) {
    s != "" && LabelNameStart(s[0]) && forall i :: 0 <= i < |s| ==> LabelNameChar(s[i])
  }

  predicate LegalMetricName(s: string) {
    && s != "" && (LabelNameStart(s[0]) || s[0] == ':')
    && forall i :: 0 <= i < |s| ==> LabelNameChar(s[i]) || s[i] == ':'
  }

  /**
   The format's own samples: legal names, distinct labels with any values, a value without blanks.
   All of them read back, for every layout without blanks after commas, a comma before the closing brace
   included; with such blanks exactly those without a label after a comma do.
   */
  lemma LegalSamplesRoundTrip(s: Sample, l: Layout)
    requires IsLayout(l) && LegalMetricName(s.name) && DistinctKeys(s.labels)
    requires forall i :: 0 <= i < |s.labels| ==> LegalLabelName(s.labels[i].0)
    requires s.value != "" && NoBlanks(s.value)
    requires s.timestamp.Some? ==> s.timestamp.value != "" && NoBlanks(s.timestamp.value)
    ensures Parse(PrintWith(s, l)) ==
            if s.labels == [] || ((l.afterComma == "" || |s.labels| == 1) && NoBlanks(l.trailing)) then Ok(s)
            else Err(InvalidLine)
    ensures s.labels == [] && l.beforeValue != "" && s.value[0] != '{' ==> Parse(PrintBare(s, l)) == Ok(s)
  {
    assert WellFormed(s);
    RoundTrip(s, l);
    if |s.labels| > 1 {
      assert s.labels[1..][0] == s.labels[1];
      assert s.labels[1].0 != "";
    }
    if s.labels == [] && l.beforeValue != "" && s.value[0] != '{' {
      BareRoundTrip(s, l);
    }
  }

  /** A concrete failure: the format allows the blank after the comma, the parser refuses the line. */
  lemma BlankAfterCommaRefused()
    ensures Parse("m{" + ("a=\"x\"" + ", b=\"y\"} 1")) == Err(InvalidLine)
  {
    var p := START.(name := "m", mode := StartOfLabelName);
    assert Run(START, "m{") == Ok(p) by {
      RunOpen("m", PLAIN);
      assert "m" + "" + "{" + "" == "m{";
    }
    var q := p.(mode := NextLabel, labels := [("a", "x")]);
    assert Run(p, "a=\"x\"") == Ok(q) by {
      RunFirstLabel(p, ("a", "x"), PLAIN);
      FirstLabelText();
    }
    BlankThenName(q, ", b=\"y\"} 1");
    RunAppend(START, "m{", "a=\"x\"" + ", b=\"y\"} 1");
    RunAppend(p, "a=\"x\"", ", b=\"y\"} 1");
  }

  lemma FirstLabelText()
    ensures PrintLabel(("a", "x"), PLAIN) == "a=\"x\""
  {
    assert Escape("x") == "x";
  }

  lemma BlankThenName(q: Parser, rest: string)
    requires q.mode == NextLabel && |rest| > 2 && rest[..2] == ", " && rest[2] != '=' && !IsBlank(rest[2])
    ensures Run(q, rest) == Err(InvalidLine)
  {
    assert rest[0] == ',' && rest[1] == ' ';
    var named := q.(mode := LabelName);
    assert Step(q, ',') == Ok(named) && Step(named, ' ') == Ok(q.(mode := LabelValueEquals));
    assert rest[1..][0] == ' ' && rest[1..][1..] == rest[2..] && rest[2..][0] == rest[2];
    assert Run(q.(mode := LabelValueEquals), rest[2..]) == Err(InvalidLine);
    assert Run(named, rest[1..]) == Err(InvalidLine);
  }
}
