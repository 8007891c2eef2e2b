/** The status stream of a bulk run, and the reader that collects packages to retry (`_collect_status`). */
module Status {
  import opened Templates

  datatype Word = Missing | Invalid | Skip | ParseError | Broken | Done | Ok | Failed

  datatype Line = Line(name: Name, word: Word)

  function Text(w: Word): string {
    match w
    case Missing => "missing"
    case Invalid => "invalid"
    case Skip => "skipped"
    case ParseError => "parse"
    case Broken => "broken"
    case Done => "done"
    case Ok => "ok"
    case Failed => "failed"
  }

  function Render(l: Line): string {
    l.name.text + " " + Text(l.word) + "\n"
  }

  /** What `str.split()` takes for white space. */
  predicate Blank(c: char) {
    || c == ' ' || '\t' <= c <= '\r' || '\U{1c}' <= c <= '\U{1f}' || c == '\U{85}' || c == '\U{a0}'
    || c == '\U{1680}' || '\U{2000}' <= c <= '\U{200a}' || c == '\U{2028}' || c == '\U{2029}'
    || c == '\U{202f}' || c == '\U{205f}' || c == '\U{3000}'
  }

  predicate Token(s: string) {
    s != "" && forall i :: 0 <= i < |s| ==> !Blank(s[i])
  }

  /** The length of the longest prefix without blanks. */
  function WordEnd(s: string): (n: nat)
    ensures n <= |s|
    ensures forall i :: 0 <= i < n ==> !Blank(s[i])
    ensures n < |s| ==> Blank(s[n])
  {
    if s == "" || Blank(s[0]) then 0 else 1 + WordEnd(s[1..])
  }

  /** `str.split()`: the maximal runs of non-blank characters. */
  function Split(s: string): seq<string>
    decreases |s|
  {
    if s == "" then []
    else if Blank(s[0]) then Split(s[1..])
    else
      var n := WordEnd(s);
      assert n > 0;
      [s[..n]] + Split(s[n..])
  }

  /** The characters with these codes, and no others. */
  lemma BlankCodes(c: char)
    ensures Blank(c) <==>
              || 9 <= c as int <= 13 || 28 <= c as int <= 32 || c as int == 0x85 || c as int == 0xa0
              || c as int == 0x1680 || c as int == 0x2028 || c as int == 0x2029 || c as int == 0x202f
              || c as int == 0x205f || c as int == 0x3000 || 0x2000 <= c as int <= 0x200a
  {
  }

  lemma {:induction false} WordEndToken(t: string, rest: string)
    requires forall i :: 0 <= i < |t| ==> !Blank(t[i])
    requires rest == "" || Blank(rest[0])
    ensures WordEnd(t + rest) == |t|
  {
    if t == "" {
      assert t + rest == rest;
    } else {
      WordEndToken(t[1..], rest);
      assert (t + rest)[1..] == t[1..] + rest;
    }
  }

  lemma SplitToken(t: string, rest: string)
    requires Token(t)
    requires rest == "" || Blank(rest[0])
    ensures Split(t + rest) == [t] + Split(rest)
  {
    var s := t + rest;
    assert s[0] == t[0];
    WordEndToken(t, rest);
    assert s[..|t|] == t && s[|t|..] == rest;
  }

  // ---- Splitting a text at its blanks ----

  ghost predicate AllBlank(s: string) {
    forall i :: 0 <= i < |s| ==> Blank(s[i])
  }

  /** The words with blanks before each of them, and `end` after the last. */
  ghost function Weave(gaps: seq<string>, words: seq<string>, end: string): string
    requires |gaps| == |words|
  {
    if words == [] then end else gaps[0] + (words[0] + Weave(gaps[1..], words[1..], end))
  }

  /** Blanks between words, possibly none in front of the first one. */
  ghost predicate Gaps(gaps: seq<string>) {
    forall i :: 0 <= i < |gaps| ==> AllBlank(gaps[i]) && (i > 0 ==> gaps[i] != "")
  }

  lemma {:induction false} SplitBlanks(gap: string, rest: string)
    requires AllBlank(gap)
    ensures Split(gap + rest) == Split(rest)
  {
    if gap == "" {
      assert gap + rest == rest;
    } else {
      SplitBlanks(gap[1..], rest);
      assert (gap + rest)[1..] == gap[1..] + rest;
    }
  }

  /** Splitting gives back the words, however they are spaced. */
  lemma {:induction false} SplitWeave(gaps: seq<string>, words: seq<string>, end: string)
    requires |gaps| == |words| && Gaps(gaps) && AllBlank(end)
    requires forall w :: w in words ==> Token(w)
    ensures Split(Weave(gaps, words, end)) == words
    decreases |words|
  {
    if words == [] {
      SplitBlanks(end, "");
      assert end + "" == end;
    } else {
      var rest := Weave(gaps[1..], words[1..], end);
      SplitWeave(gaps[1..], words[1..], end);
      SplitBlanks(gaps[0], words[0] + rest);
      if |words| > 1 {
        assert gaps[1..][0] != "" && rest[0] == gaps[1..][0][0];
      }
      SplitToken(words[0], rest);
      assert words == [words[0]] + words[1..];
    }
  }

  lemma TextIsToken(w: Word)
    ensures Token(Text(w))
  {
    match w
    case Missing =>
    case Invalid =>
    case Skip =>
    case ParseError =>
    case Broken =>
    case Done =>
    case Ok =>
    case Failed =>
  }

  lemma SplitNewline()
    ensures Split("\n") == []
  {
    assert "\n"[1..] == "";
  }

  lemma SplitBlank(rest: string)
    ensures Split(" " + rest) == Split(rest)
  {
    assert (" " + rest)[1..] == rest;
  }

  lemma Regroup<T>(a: seq<T>, b: seq<T>, c: seq<T>, d: seq<T>)
    ensures a + b + c + d == a + (b + (c + d))
  {
  }

  lemma SplitPair(a: string, b: string, end: string)
    requires Token(a) && Token(b)
    requires end != "" && Blank(end[0]) && Split(end) == []
    ensures Split(a + " " + b + end) == [a, b]
  {
    var tail := " " + (b + end);
    Regroup(a, " ", b, end);
    SplitToken(a, tail);
    SplitBlank(b + end);
    SplitToken(b, end);
  }

  /** A rendered line splits back into its name and its word. */
  lemma SplitRender(l: Line)
    requires Token(l.name.text)
    ensures Split(Render(l)) == [l.name.text, Text(l.word)]
  {
    TextIsToken(l.word);
    SplitNewline();
    SplitPair(l.name.text, Text(l.word), "\n");
  }

  /** The text of a status line, word by word. */
  lemma RenderedText(n: Name)
    ensures Render(Line(n, Missing)) == n.text + " missing\n" && Render(Line(n, Invalid)) == n.text + " invalid\n"
    ensures Render(Line(n, Skip)) == n.text + " skipped\n" && Render(Line(n, ParseError)) == n.text + " parse\n"
    ensures Render(Line(n, Broken)) == n.text + " broken\n" && Render(Line(n, Done)) == n.text + " done\n"
    ensures Render(Line(n, Ok)) == n.text + " ok\n" && Render(Line(n, Failed)) == n.text + " failed\n"
  {
    assert " " + "missing" + "\n" == " missing\n" && " " + "invalid" + "\n" == " invalid\n";
    assert " " + "skipped" + "\n" == " skipped\n" && " " + "parse" + "\n" == " parse\n";
    assert " " + "broken" + "\n" == " broken\n" && " " + "done" + "\n" == " done\n";
    assert " " + "ok" + "\n" == " ok\n" && " " + "failed" + "\n" == " failed\n";
    forall w ensures Render(Line(n, w)) == n.text + (" " + Text(w) + "\n") {
      hide Text;
    }
  }

  ghost predicate Retried(line: string) {
    var slist := Split(line);
    |slist| > 0 && (|slist| == 1 || slist[1] !in ["broken", "ok", "invalid", "missing"])
  }

  /** The names a status text asks to try again. */
  ghost function RetryNames(text: seq<string>): set<string> {
    set i | 0 <= i < |text| && Retried(text[i]) :: Split(text[i])[0]
  }

  /** The words of a line that ask for `p`: `p` alone, or before another word than these four. */
  ghost predicate AsksFor(words: seq<string>, p: string) {
    || words == [p]
    || (|words| >= 2 && words[0] == p
        && words[1] != "broken" && words[1] != "ok" && words[1] != "invalid" && words[1] != "missing")
  }

  /** Collects the first word of every line unless the second one says there is nothing to retry. */
  method CollectStatus(text: seq<string>) returns (pkgs: set<string>)
    ensures pkgs == RetryNames(text)
    ensures forall p :: p in pkgs <==> exists i :: 0 <= i < |text| && AsksFor(Split(text[i]), p)
  {
    pkgs := {};
    for i := 0 to |text|
      invariant pkgs == RetryNames(text[..i])
    {
      RetryNamesStep(text, i);
      var slist := Split(text[i]);
      if |slist| == 0 {
        continue;
      } else if |slist| == 1 {
        pkgs := pkgs + {slist[0]};
      } else if slist[1] in ["broken", "ok", "invalid", "missing"] {
        continue;
      } else {
        pkgs := pkgs + {slist[0]};
      }
    }
    assert text[..|text|] == text;
    forall p ensures p in pkgs <==> exists i :: 0 <= i < |text| && AsksFor(Split(text[i]), p) {
      AskedFor(text, p);
    }
  }

  lemma AskedFor(text: seq<string>, p: string)
    ensures p in RetryNames(text) <==> exists i :: 0 <= i < |text| && AsksFor(Split(text[i]), p)
  {
    forall i | 0 <= i < |text| ensures AsksFor(Split(text[i]), p) <==> Retried(text[i]) && Split(text[i])[0] == p {
      var words := Split(text[i]);
      if |words| == 1 {
        assert words == [words[0]];
      }
    }
  }

  lemma RetryNamesStep(text: seq<string>, i: nat)
    requires i < |text|
    ensures RetryNames(text[..i + 1]) == RetryNames(text[..i]) + if Retried(text[i]) then {Split(text[i])[0]} else {}
  {
    var a, b := text[..i], text[..i + 1];
    forall p | p in RetryNames(a) ensures p in RetryNames(b) {
      var j :| 0 <= j < |a| && Retried(a[j]) && p == Split(a[j])[0];
      assert b[j] == a[j];
    }
    forall p | p in RetryNames(b)
      ensures p in RetryNames(a) || (Retried(text[i]) && p == Split(text[i])[0])
    {
      var j :| 0 <= j < |b| && Retried(b[j]) && p == Split(b[j])[0];
      if j < i {
        assert a[j] == b[j];
      }
    }
    if Retried(text[i]) {
      assert b[i] == text[i];
    }
  }

  /** The words after which a package is tried again. */
  predicate NeedsRetry(w: Word) {
    w.Skip? || w.ParseError? || w.Done? || w.Failed?
  }

  lemma RetriedWords(w: Word)
    ensures Text(w) in ["broken", "ok", "invalid", "missing"] <==> !NeedsRetry(w)
  {
    assert |"broken"| == 6 && |"ok"| == 2 && |"invalid"| == 7 && |"missing"| == 7;
    assert |Text(Skip)| == 7 && Text(Skip)[0] == 's' && "invalid"[0] == 'i' && "missing"[0] == 'm';
    assert |Text(Failed)| == 6 && Text(Failed)[0] == 'f' && "broken"[0] == 'b';
    assert |Text(ParseError)| == 5 && |Text(Done)| == 4;
  }

  ghost function Rendered(status: seq<Line>): seq<string> {
    seq(|status|, i requires 0 <= i < |status| => Render(status[i]))
  }

  /** Feeding a status stream back yields exactly the packages left to retry. */
  lemma RoundTrip(status: seq<Line>)
    requires forall l :: l in status ==> Token(l.name.text)
    ensures RetryNames(Rendered(status))
            == set i | 0 <= i < |status| && NeedsRetry(status[i].word) :: status[i].name.text
  {
    var text := Rendered(status);
    forall i | 0 <= i < |status|
      ensures Retried(text[i]) <==> NeedsRetry(status[i].word)
      ensures Split(text[i])[0] == status[i].name.text
    {
      assert status[i] in status;
      SplitRender(status[i]);
      RetriedWords(status[i].word);
    }
    forall p | p in RetryNames(text)
      ensures exists i :: 0 <= i < |status| && NeedsRetry(status[i].word) && status[i].name.text == p
    {
      var i :| 0 <= i < |text| && Retried(text[i]) && p == Split(text[i])[0];
    }
    forall i | 0 <= i < |status| && NeedsRetry(status[i].word) ensures status[i].name.text in RetryNames(text) {
      assert Split(text[i])[0] == status[i].name.text;
    }
  }
}
