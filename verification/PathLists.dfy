// Lists of paths joined by " | ", where a path may contain quoted bars.
module PathLists {
  import opened Prelude

  // What str.strip removes.
  predicate IsStripped(c: char) {
    || c in {' ', '\t', '\n', '\r', '\U{b}', '\U{c}', '\U{85}', '\U{a0}', '\U{1680}'}
    || '\U{1c}' <= c <= '\U{1f}' || '\U{2000}' <= c <= '\U{200a}'
    || c in {'\U{2028}', '\U{2029}', '\U{202f}', '\U{205f}', '\U{3000}'}
  }

  predicate IsQuote(c: char) {
    c == '\'' || c == '"'
  }

  function StripLeft(s: string): string {
    if s != "" && IsStripped(s[0]) then StripLeft(s[1..]) else s
  }

  function StripRight(s: string): string {
    if s != "" && IsStripped(s[|s| - 1]) then StripRight(s[..|s| - 1]) else s
  }

  function Strip(s: string): string {
    StripRight(StripLeft(s))
  }

  predicate Trimmed(s: string) {
    s != "" && !IsStripped(s[0]) && !IsStripped(s[|s| - 1])
  }

  // -- The scanner --

  datatype Scan = Scan(parts: seq<string>, current: string, quote: Option<char>)

  function Flush(parts: seq<string>, current: string): seq<string> {
    if Strip(current) == "" then parts else parts + [Strip(current)]
  }

  function Step(s: Scan, c: char): Scan {
    if s.quote.Some? then Scan(s.parts, s.current + [c], if c == s.quote.value then None else s.quote)
    else if IsQuote(c) then Scan(s.parts, s.current + [c], Some(c))
    else if c == '|' then Scan(Flush(s.parts, s.current), "", None)
    else Scan(s.parts, s.current + [c], None)
  }

  function Run(s: Scan, text: string): Scan {
    if text == "" then s else Step(Run(s, text[..|text| - 1]), text[|text| - 1])
  }

  const START := Scan([], "", None)

  function Split(text: string): seq<string> {
    var end := Run(START, text);
    Flush(end.parts, end.current)
  }

  method SplitSrcmovePathList(value: Option<string>) returns (parts: seq<string>)
    ensures parts == match value case None => [] case Some(text) => Split(text)
  {
    parts := [];
    if value.None? {
      return;
    }
    var text, current := value.value, "";
    var quote: Option<char> := None;
    assert text[..0] == "";
    for i := 0 to |text|
      invariant Scan(parts, current, quote) == Run(START, text[..i])
    {
      var c := text[i];
      assert text[..i + 1][..i] == text[..i];
      if quote.Some? {
        current := current + [c];
        if c == quote.value {
          quote := None;
        }
        continue;
      }
      if IsQuote(c) {
        quote := Some(c);
        current := current + [c];
        continue;
      }
      if c == '|' {
        var part := Strip(current);
        if part != "" {
          parts := parts + [part];
        }
        current := "";
        continue;
      }
      current := current + [c];
    }
    assert text[..|text|] == text;
    var tail := Strip(current);
    if tail != "" {
      parts := parts + [tail];
    }
  }

  lemma {:induction false} RunAppend(s: Scan, a: string, b: string)
    ensures Run(s, a + b) == Run(Run(s, a), b)
  {
    if b == "" {
      assert a + b == a;
    } else {
      assert (a + b)[..|a + b| - 1] == a + b[..|b| - 1];
      RunAppend(s, a, b[..|b| - 1]);
    }
  }

  lemma RunOne(s: Scan, c: char)
    ensures Run(s, [c]) == Step(s, c)
  {
    assert [c][..0] == "";
  }

  // -- Text without a separating bar --

  // The open quote after reading text, starting with quote q.
  function QuoteAfter(q: Option<char>, text: string): Option<char> {
    if text == "" then q
    else
      var c, before := text[|text| - 1], QuoteAfter(q, text[..|text| - 1]);
      if before.Some? then if c == before.value then None else before
      else if IsQuote(c) then Some(c)
      else None
  }

  predicate NoBar(q: Option<char>, text: string) {
    text == "" || (NoBar(q, text[..|text| - 1])
        && (text[|text| - 1] == '|' ==> QuoteAfter(q, text[..|text| - 1]).Some?))
  }

  // A well-formed path: trimmed, quotes closed, no bar outside quotes.
  predicate PathText(text: string) {
    Trimmed(text) && NoBar(None, text) && QuoteAfter(None, text) == None
  }

  // Without a separating bar, scanning only collects.
  lemma {:induction false} RunCollects(s: Scan, text: string)
    requires NoBar(s.quote, text)
    ensures Run(s, text) == Scan(s.parts, s.current + text, QuoteAfter(s.quote, text))
  {
    if text == "" {
      assert s.current + text == s.current;
    } else {
      RunCollects(s, text[..|text| - 1]);
      assert text == text[..|text| - 1] + [text[|text| - 1]];
      assert s.current + text == s.current + text[..|text| - 1] + [text[|text| - 1]];
    }
  }

  // -- Stripping --

  lemma {:induction false} StripLeftKeeps(s: string)
    ensures StripLeft(s) != "" ==> !IsStripped(StripLeft(s)[0])
    ensures |StripLeft(s)| <= |s| && StripLeft(s) == s[|s| - |StripLeft(s)|..]
    ensures forall i | 0 <= i < |s| - |StripLeft(s)| :: IsStripped(s[i])
  {
    if s == "" || !IsStripped(s[0]) {
    } else {
      StripLeftKeeps(s[1..]);
      assert forall i | 0 < i < |s| :: s[i] == s[1..][i - 1];
    }
  }

  lemma {:induction false} StripRightKeeps(s: string)
    ensures StripRight(s) != "" ==> !IsStripped(StripRight(s)[|StripRight(s)| - 1])
    ensures |StripRight(s)| <= |s| && StripRight(s) == s[..|StripRight(s)|]
  {
    if s == "" || !IsStripped(s[|s| - 1]) {
    } else {
      StripRightKeeps(s[..|s| - 1]);
    }
  }

  lemma StripTrims(s: string)
    ensures Strip(s) == "" || Trimmed(Strip(s))
  {
    StripLeftKeeps(s);
    StripRightKeeps(StripLeft(s));
  }

  // Blanks around a trimmed text disappear.
  lemma StripPadding(before: bool, text: string, after: bool)
    requires Trimmed(text)
    ensures Strip((if before then " " else "") + text + (if after then " " else "")) == text
  {
    var padded := (if before then " " else "") + text + (if after then " " else "");
    var right := text + if after then " " else "";
    assert StripLeft(right) == right;
    if before {
      assert padded[1..] == right;
    } else {
      assert padded == right;
    }
    assert StripRight(text) == text;
    if after {
      assert right[..|right| - 1] == text && right[|right| - 1] == ' ';
      assert StripRight(right) == StripRight(text);
    } else {
      assert right == text;
    }
  }

  // -- Splitting inverts joining --

  function Join(parts: seq<string>): string {
    if parts == [] then ""
    else if |parts| == 1 then parts[0]
    else Join(parts[..|parts| - 1]) + " | " + parts[|parts| - 1]
  }

  // The scan after a joined list: the last part, padded, is still collected.
  lemma {:induction false} RunJoined(parts: seq<string>)
    requires parts != [] && forall i | 0 <= i < |parts| :: PathText(parts[i])
    ensures Run(START, Join(parts))
          == Scan(parts[..|parts| - 1], (if |parts| > 1 then " " else "") + parts[|parts| - 1], None)
  {
    hide PathText, Step, Flush, Strip;
    var front, last := parts[..|parts| - 1], parts[|parts| - 1];
    if |parts| == 1 {
      Collect(START, last);
    } else {
      RunJoined(front);
      RunAppend(START, Join(front), " | " + last);
      assert Join(front) + (" | " + last) == Join(parts);
      NextPart(Run(START, Join(front)), front, last);
    }
  }

  lemma Collect(s: Scan, text: string)
    requires PathText(text) && s.quote == None
    ensures Run(s, text) == Scan(s.parts, s.current + text, None)
  {
    RunCollects(s, text);
  }

  lemma NextPart(s: Scan, front: seq<string>, last: string)
    requires front != [] && PathText(front[|front| - 1]) && PathText(last)
    requires s == Scan(front[..|front| - 1], (if |front| > 1 then " " else "") + front[|front| - 1], None)
    ensures Run(s, " | " + last) == Scan(front, " " + last, None)
  {
    hide PathText, Strip;
    var pending := front[|front| - 1];
    assert Trimmed(pending) by {
      IsTrimmed(pending);
    }
    RunAppend(s, " | ", last);
    RunAppend(s, " |", " ");
    RunAppend(s, " ", "|");
    RunOne(s, ' ');
    var spaced := Scan(s.parts, s.current + " ", None);
    RunOne(spaced, '|');
    StripPadding(|front| > 1, pending, true);
    assert Flush(s.parts, s.current + " ") == front[..|front| - 1] + [pending] == front;
    RunOne(Scan(front, "", None), ' ');
    assert " |" + " " == " | " && " " + "|" == " |" && "" + " " == " ";
    Collect(Scan(front, " ", None), last);
  }

  lemma IsTrimmed(text: string)
    requires PathText(text)
    ensures Trimmed(text)
  {
  }

  lemma SplitInvertsJoin(parts: seq<string>)
    requires forall i | 0 <= i < |parts| :: PathText(parts[i])
    ensures Split(Join(parts)) == parts
  {
    hide PathText, Strip, Split, Run, Join;
    if parts == [] {
      SplitNothing();
    } else {
      var last := parts[|parts| - 1];
      RunJoined(parts);
      IsTrimmed(last);
      FlushLast(parts[..|parts| - 1], |parts| > 1, last);
      SplitFlushes(Join(parts));
      assert parts[..|parts| - 1] + [last] == parts;
    }
  }

  lemma SplitNothing()
    ensures Split(Join([])) == []
  {
  }

  lemma SplitFlushes(text: string)
    ensures Split(text) == Flush(Run(START, text).parts, Run(START, text).current)
  {
  }

  lemma FlushLast(parts: seq<string>, padded: bool, last: string)
    requires Trimmed(last)
    ensures Flush(parts, (if padded then " " else "") + last) == parts + [last]
  {
    hide Strip;
    StripPadding(padded, last, false);
    assert (if padded then " " else "") + last + "" == (if padded then " " else "") + last;
  }

  // -- Every part splits to itself --

  ghost predicate SelfContained(text: string) {
    Trimmed(text) && NoBar(None, text)
  }

  lemma {:induction false} NoBarPrefix(q: Option<char>, text: string, n: nat)
    requires NoBar(q, text) && n <= |text|
    ensures NoBar(q, text[..n])
  {
    if n < |text| {
      NoBarPrefix(q, text[..|text| - 1], n);
      assert text[..|text| - 1][..n] == text[..n];
    } else {
      assert text[..n] == text;
    }
  }

  // Leading blanks do not matter to quoting.
  lemma {:induction false} NoBarAfterBlank(blank: char, text: string)
    requires IsStripped(blank)
    ensures QuoteAfter(None, [blank] + text) == QuoteAfter(None, text)
    ensures NoBar(None, [blank] + text) ==> NoBar(None, text)
  {
    if text == "" {
      assert [blank] + text == [blank];
      assert [blank][..0] == "";
    } else {
      assert ([blank] + text)[..|text|] == [blank] + text[..|text| - 1];
      NoBarAfterBlank(blank, text[..|text| - 1]);
    }
  }

  lemma {:induction false} StripLeftNoBar(text: string)
    requires NoBar(None, text)
    ensures NoBar(None, StripLeft(text))
  {
    if text == "" || !IsStripped(text[0]) {
    } else {
      assert [text[0]] + text[1..] == text;
      NoBarAfterBlank(text[0], text[1..]);
      StripLeftNoBar(text[1..]);
    }
  }

  lemma StripSelfContained(text: string)
    requires NoBar(None, text)
    ensures Strip(text) == "" || SelfContained(Strip(text))
  {
    StripTrims(text);
    StripLeftNoBar(text);
    StripRightKeeps(StripLeft(text));
    NoBarPrefix(None, StripLeft(text), |StripRight(StripLeft(text))|);
  }

  ghost predicate Collecting(s: Scan) {
    && NoBar(None, s.current) && QuoteAfter(None, s.current) == s.quote
    && forall i | 0 <= i < |s.parts| :: SelfContained(s.parts[i])
  }

  lemma StepCollects(s: Scan, c: char)
    requires Collecting(s)
    ensures Collecting(Step(s, c))
  {
    assert (s.current + [c])[..|s.current|] == s.current;
    StripSelfContained(s.current);
  }

  lemma {:induction false} RunIsCollecting(text: string)
    ensures Collecting(Run(START, text))
  {
    if text == "" {
    } else {
      RunIsCollecting(text[..|text| - 1]);
      StepCollects(Run(START, text[..|text| - 1]), text[|text| - 1]);
    }
  }

  // Whatever was split, a returned part is a list of one.
  lemma PartsSplitToThemselves(text: string, i: nat)
    requires i < |Split(text)|
    ensures Split(Split(text)[i]) == [Split(text)[i]]
  {
    var end := Run(START, text);
    RunIsCollecting(text);
    StripSelfContained(end.current);
    var part := Split(text)[i];
    assert SelfContained(part);
    RunCollects(START, part);
    assert "" + part == part;
    StripPadding(false, part, false);
    assert "" + part + "" == part;
  }
}
