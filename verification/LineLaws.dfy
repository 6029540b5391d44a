/**
 What `parseLine` of orchestrator/src/metrics/parseLine.ts does with lines that no printer of samples
 prints: labels without values, unknown escapes, missing signs, repeated labels, unfinished lines.
 */
module LineLaws {
  import opened Wrappers
  import opened OrderedMap
  import opened LineParser

  /** The parser behind a label. */
  function At(name: string, labels: Labels): Parser {
    START.(name := name, labels := labels, mode := NextLabel)
  }

  function Head(name: string): string { name + "{" }

  function Label(k: string, text: string): string { k + ("=\"" + (text + "\"")) }

  lemma AfterHead(name: string)
    requires NameText(name)
    ensures Run(START, Head(name)) == Ok(START.(name := name, mode := StartOfLabelName))
  {
    RunOpen(name, PLAIN);
    assert name + "" + "{" + "" == Head(name);
  }

  lemma AfterLabelName(name: string, k: string)
    requires NameText(name) && FirstLabelNameText(k)
    ensures Run(START, Head(name) + k) == Ok(START.(name := name, labelName := k, mode := LabelName))
  {
    var p := START.(name := name, mode := StartOfLabelName);
    AfterHead(name);
    RunAppend(START, Head(name), k);
    assert p.labelName + [k[0]] == [k[0]];
    var q := p.(mode := LabelName, labelName := [k[0]]);
    assert Step(p, k[0]) == Ok(q);
    RunLabelName(q, k[1..]);
    assert [k[0]] + k[1..] == k;
  }

  /** A label whose value is written as `text`, from the quote on. */
  lemma AfterQuote(name: string, k: string, text: string, v: string)
    requires NameText(name) && FirstLabelNameText(k)
    requires var p := START.(name := name, labelName := k, mode := LabelValue); Run(p, text) == Ok(p.(labelValue := v))
    ensures Run(START, Head(name) + Label(k, text)) == Ok(At(name, [(k, v)]))
  {
    var p := START.(name := name, labelName := k, mode := LabelName);
    var q := p.(mode := LabelValue);
    AfterLabelName(name, k);
    assert Head(name) + Label(k, text) == (Head(name) + k) + ("=\"" + (text + "\""));
    RunAppend(START, Head(name) + k, "=\"" + (text + "\""));
    RunAppend(p, "=\"", text + "\"");
    assert Run(p, "=\"") == Ok(q) by { TwoSteps(p, "=\""); }
    RunAppend(q, text, "\"");
    assert "\""[1..] == "";
  }

  lemma TwoSteps(p: Parser, s: string)
    requires |s| == 2 && Step(p, s[0]).Ok?
    ensures Run(p, s) == Step(Step(p, s[0]).value, s[1])
  {
    assert s[1..][0] == s[1] && s[1..][1..] == "";
    var q := Step(p, s[0]).value;
    assert Run(q, s[1..]) == Step(q, s[1]);
  }

  lemma AfterLabel(name: string, k: string, v: string)
    requires NameText(name) && FirstLabelNameText(k)
    ensures Run(START, Head(name) + Label(k, Escape(v))) == Ok(At(name, [(k, v)]))
  {
    var p := START.(name := name, labelName := k, mode := LabelValue);
    RunEscaped(p, v);
    assert p.labelValue + v == v;
    AfterQuote(name, k, Escape(v), v);
  }

  /** A line from the closing brace on. */
  lemma Closed(head: string, p: Parser, value: string)
    requires Run(START, head) == Ok(p) && p.mode in {StartOfLabelName, LabelName, NextLabel}
    requires p.value == p.timestamp == "" && NoBlanks(value)
    ensures Parse(head + "}" + " " + value) == Ok(Sample(p.name, p.labels, value, None))
  {
    RunAppend(START, head, "}");
    assert "}"[1..] == "";
    var s := Sample("", [], value, None);
    assert WellFormed(s);
    RunClosed(START, head + "}", s, PLAIN);
    assert head + "}" + " " + value + "" + "" == head + "}" + " " + value;
  }

  // ---- labels without values, and commas before the brace

  /** The whole line, with a comma and what follows it before the closing brace. */
  function WithTrailing(s: Sample, trailing: string): string {
    PrintWith(s, PLAIN.(trailing := "," + trailing))
  }

  /**
   A comma directly before the closing brace, which the format allows, changes nothing; neither does a label
   name without a value there. With blanks between comma and brace the line is invalid.
   */
  lemma TrailingComma(s: Sample, name: string, blanks: string)
    requires WellFormed(s) && s.labels != [] && LabelNameText(name) && Blanks(blanks) && blanks != ""
    ensures Parse(WithTrailing(s, "")) == Ok(s)
    ensures Parse(WithTrailing(s, name)) == Ok(s)
    ensures Parse(WithTrailing(s, blanks)) == Err(InvalidLine)
  {
    TrailingIsLayout("");
    TrailingIsLayout(name);
    TrailingIsLayout(blanks);
    RoundTrip(s, PLAIN.(trailing := "," + ""));
    RoundTrip(s, PLAIN.(trailing := "," + name));
    RoundTrip(s, PLAIN.(trailing := "," + blanks));
    assert ("," + blanks)[1] == blanks[0];
  }

  lemma TrailingIsLayout(t: string)
    requires LabelNameText(t) || Blanks(t)
    ensures IsLayout(PLAIN.(trailing := "," + t))
    ensures LabelNameText(t) ==> NoBlanks("," + t)
  {
    assert ("," + t)[1..] == t;
  }

  /** A name without a value alone between the braces is dropped. */
  lemma BareNameDropped(name: string, k: string, value: string)
    requires NameText(name) && FirstLabelNameText(k) && NoBlanks(value)
    ensures Parse(Head(name) + k + "}" + " " + value) == Ok(Sample(name, [], value, None))
  {
    AfterLabelName(name, k);
    Closed(Head(name) + k, START.(name := name, labelName := k, mode := LabelName), value);
  }

  // ---- escapes

  /** What a backslash and a character in a label value are read as. */
  function EscapeMeans(c: char): string {
    if c == 'n' then "\n" else if c == '"' || c == '\\' then [c] else ['\\', c]
  }

  /**
   Anywhere in a label value: a backslash before `n`, a quote or a backslash is an escape, before any other
   character both characters stay.
   */
  lemma EscapesRead(name: string, k: string, before: string, c: char, behind: string, value: string)
    requires NameText(name) && FirstLabelNameText(k) && NoBlanks(value)
    ensures Parse(Head(name) + Label(k, Escape(before) + (['\\', c] + Escape(behind))) + "}" + " " + value) ==
            Ok(Sample(name, [(k, before + EscapeMeans(c) + behind)], value, None))
  {
    var p := START.(name := name, labelName := k, mode := LabelValue);
    var text, v := Escape(before) + (['\\', c] + Escape(behind)), before + EscapeMeans(c) + behind;
    RunEscaped(p, before);
    assert p.labelValue + before == before;
    var q := p.(labelValue := before);
    RunAppend(p, Escape(before), ['\\', c] + Escape(behind));
    RunAppend(q, ['\\', c], Escape(behind));
    TwoSteps(q, ['\\', c]);
    RunEscaped(q.(labelValue := before + EscapeMeans(c)), behind);
    AfterQuote(name, k, text, v);
    Closed(Head(name) + Label(k, text), At(name, [(k, v)]), value);
  }

  // ---- blanks

  /** A name ends at a space or a tab, and at no other character but a brace. */
  lemma NameEndsAtBlank(name: string, c: char, value: string)
    requires forall i :: 0 <= i < |name| ==> name[i] !in {' ', '\t', '{'}
    requires value != "" && forall i :: 0 <= i < |value| ==> value[i] !in {' ', '\t', '{'}
    ensures Parse(name + ([c] + value)) ==
            if c == ' ' || c == '\t' then Ok(Sample(name, [], value, None))
            else if c == '{' then Parse(Head(name) + value)
            else Ok(Sample(name + ([c] + value), [], "", None))
  {
    if c == ' ' || c == '\t' {
      BareRoundTrip(Sample(name, [], value, None), PLAIN.(beforeValue := [c]));
      assert name + [c] + value + "" + "" == name + ([c] + value);
    } else if c == '{' {
      assert Head(name) + value == name + ([c] + value);
    } else {
      RunName(START, name + ([c] + value));
      assert START.name + (name + ([c] + value)) == name + ([c] + value);
    }
  }

  // ---- missing signs

  /** After the equals sign only blanks may come before the quote. */
  lemma MissingQuoteRefused(name: string, k: string, blanks: string, c: char, rest: string)
    requires NameText(name) && FirstLabelNameText(k) && Blanks(blanks) && c != '"' && !IsBlank(c)
    ensures Parse(Head(name) + k + ("=" + (blanks + ([c] + rest)))) == Err(InvalidLine)
  {
    var p := START.(name := name, labelName := k, mode := LabelName);
    AfterLabelName(name, k);
    RunAppend(START, Head(name) + k, "=" + (blanks + ([c] + rest)));
    RunAppend(p, "=", blanks + ([c] + rest));
    assert "="[1..] == "";
    RefusedAt(p.(mode := LabelValueQuote), blanks, c, rest);
  }

  /** After a label's name and a blank only an equals sign may come. */
  lemma MissingEqualsRefused(name: string, k: string, blanks: string, c: char, rest: string)
    requires NameText(name) && FirstLabelNameText(k) && Blanks(blanks) && blanks != "" && c != '=' && !IsBlank(c)
    ensures Parse(Head(name) + k + (blanks + ([c] + rest))) == Err(InvalidLine)
  {
    var p := START.(name := name, labelName := k, mode := LabelName);
    AfterLabelName(name, k);
    RunAppend(START, Head(name) + k, blanks + ([c] + rest));
    RunAppend(p, blanks, [c] + rest);
    RunIntoBlanks(p, p.(mode := LabelValueEquals), blanks);
    RefusedAt(p.(mode := LabelValueEquals), "", c, rest);
    assert "" + ([c] + rest) == [c] + rest;
  }

  /** After a label only a comma or the closing brace may come. */
  lemma MissingCommaRefused(name: string, k: string, v: string, blanks: string, c: char, rest: string)
    requires NameText(name) && FirstLabelNameText(k) && Blanks(blanks) && c != ',' && c != '}' && !IsBlank(c)
    ensures Parse(Head(name) + Label(k, Escape(v)) + (blanks + ([c] + rest))) == Err(InvalidLine)
  {
    AfterLabel(name, k, v);
    RunAppend(START, Head(name) + Label(k, Escape(v)), blanks + ([c] + rest));
    RefusedAt(At(name, [(k, v)]), blanks, c, rest);
  }

  lemma RefusedAt(p: Parser, blanks: string, c: char, rest: string)
    requires SkipsBlanks(p.mode) && Blanks(blanks) && Step(p, c) == Err(InvalidLine)
    ensures Run(p, blanks + ([c] + rest)) == Err(InvalidLine)
  {
    RunAppend(p, blanks, [c] + rest);
    RunBlanks(p, blanks);
  }

  // ---- repeated labels, several timestamps, unfinished lines

  /** Of two values for one label the last one stays. */
  lemma LastValueStays(name: string, k: string, first: string, last: string, value: string)
    requires NameText(name) && FirstLabelNameText(k) && LabelNameText(k) && NoBlanks(value)
    ensures Parse(Head(name) + Label(k, Escape(first)) + ("," + PrintLabel((k, last), PLAIN)) + "}" + " " + value) ==
            Ok(Sample(name, [(k, last)], value, None))
  {
    var p, more := At(name, [(k, first)]), "," + PrintLabel((k, last), PLAIN);
    AfterLabel(name, k, first);
    RunAppend(START, Head(name) + Label(k, Escape(first)), more);
    RunNextLabel(p, (k, last), PLAIN);
    assert "," + "" + PrintLabel((k, last), PLAIN) == more;
    assert Set([(k, first)], k, last) == [(k, last)] + [(k, first)][1..] == [(k, last)];
    Closed(Head(name) + Label(k, Escape(first)) + more, At(name, [(k, last)]), value);
  }

  /** Whatever follows the value is the timestamp, its blanks left out. */
  lemma TimestampsRunTogether(name: string, value: string, first: string, second: string)
    requires NameText(name) && NoBlanks(value) && value != "" && value[0] != '{'
    requires NoBlanks(first) && NoBlanks(second) && first != ""
    ensures Parse(name + " " + value + " " + first + " " + second) ==
            Ok(Sample(name, [], value, Some(first + second)))
  {
    var s := Sample(name, [], value, Some(first));
    var head := name + " " + value + " " + first;
    assert PrintTimestamp(Some(first), PLAIN) == " " + first;
    BareEnds(s);
    assert name + " " + value + (" " + first) + "" == head;
    var p := Run(START, head).value;
    RunAppend(START, head, " " + second);
    assert head + (" " + second) == head + " " + second;
    RunAppend(p, " ", second);
    assert Run(p, " ") == Ok(p) by { RunBlanks(p, " "); }
    RunTimestamp(p, second);
  }

  lemma BareEnds(s: Sample)
    requires WellFormed(s) && s.labels == [] && s.timestamp.Some? && s.value != "" && s.value[0] != '{'
    ensures var r := Run(START, PrintBare(s, PLAIN));
            && r.Ok? && r.value.mode == Timestamp
            && r.value.name == s.name && r.value.labels == [] && r.value.value == s.value
            && r.value.timestamp == s.timestamp.value
  {
    BareRoundTrip(s, PLAIN);
    RunReaches(START, PrintBare(s, PLAIN));
  }

  /** The end of a line may come anywhere; a label whose value is not closed is dropped. */
  lemma UnfinishedIsRead(name: string, k: string, v: string)
    requires NameText(name) && FirstLabelNameText(k)
    ensures Parse(Head(name)) == Ok(Sample(name, [], "", None))
    ensures Parse(Head(name) + k) == Ok(Sample(name, [], "", None))
    ensures Parse(Head(name) + k + ("=\"" + Escape(v))) == Ok(Sample(name, [], "", None))
    ensures Parse(Head(name) + Label(k, Escape(v))) == Ok(Sample(name, [(k, v)], "", None))
  {
    AfterHead(name);
    AfterLabelName(name, k);
    AfterLabel(name, k, v);
    var p := START.(name := name, labelName := k, mode := LabelName);
    RunAppend(START, Head(name) + k, "=\"" + Escape(v));
    RunAppend(p, "=\"", Escape(v));
    TwoSteps(p, "=\"");
    RunEscaped(p.(mode := LabelValue), v);
  }
}
