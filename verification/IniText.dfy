/**
 Lines, sections and `key = value` entries of an ini text (linux/raofflineproxy/dolphin_cfg.py),
 with Python's `strip`, `split("\n")` and `splitlines`.
 */
module IniText {
  import opened Bytes
  import opened Text

  /** What `str.strip()` removes. */
  predicate IsSpace(c: char) {
    || '\t' <= c <= '\r' || '\U{1c}' <= c <= ' ' || c == '\U{85}' || c == '\U{a0}' || c == '\U{1680}'
    || '\U{2000}' <= c <= '\U{200a}' || c == '\U{2028}' || c == '\U{2029}' || c == '\U{202f}' || c == '\U{205f}'
    || c == '\U{3000}'
  }

  function LStrip(s: string): string {
    if s != "" && IsSpace(s[0]) then LStrip(s[1..]) else s
  }

  function RStrip(s: string): string {
    if s != "" && IsSpace(s[|s| - 1]) then RStrip(s[..|s| - 1]) else s
  }

  function Strip(s: string): string {
    RStrip(LStrip(s))
  }

  /** No space at either end. */
  predicate Stripped(s: string) {
    s == "" || (!IsSpace(s[0]) && !IsSpace(s[|s| - 1]))
  }

  lemma {:induction false} LStripTrims(s: string)
    ensures LStrip(s) == "" || !IsSpace(LStrip(s)[0])
    ensures forall c :: c in LStrip(s) ==> c in s
  {
    if s != "" && IsSpace(s[0]) {
      LStripTrims(s[1..]);
    }
  }

  lemma {:induction false} RStripTrims(s: string)
    ensures RStrip(s) == "" || !IsSpace(RStrip(s)[|RStrip(s)| - 1])
    ensures RStrip(s) != "" ==> RStrip(s)[0] == s[0]
    ensures forall c :: c in RStrip(s) ==> c in s
  {
    if s != "" && IsSpace(s[|s| - 1]) {
      RStripTrims(s[..|s| - 1]);
    }
  }

  lemma StripTrims(s: string)
    ensures Stripped(Strip(s))
    ensures forall c :: c in Strip(s) ==> c in s
    ensures Stripped(s) ==> Strip(s) == s
  {
    LStripTrims(s);
    RStripTrims(LStrip(s));
  }

  /** The characters other than `\n` at which `splitlines` breaks. */
  predicate OtherBreak(c: char) {
    || c == '\r' || c == '\U{0b}' || c == '\U{0c}' || '\U{1c}' <= c <= '\U{1e}' || c == '\U{85}'
    || c == '\U{2028}' || c == '\U{2029}'
  }

  /** A single line for both ways of splitting. */
  predicate NoBreak(s: string) {
    forall i :: 0 <= i < |s| ==> s[i] != '\n' && !OtherBreak(s[i])
  }

  /** A text both ways split at the same places. */
  predicate OnlyNewlines(s: string) {
    forall i :: 0 <= i < |s| ==> !OtherBreak(s[i])
  }

  /** `s.split("\n")` */
  function Split(s: string): (lines: seq<string>)
    ensures |lines| >= 1
  {
    if s == "" then [""]
    else
      var rest := Split(s[1..]);
      if s[0] == '\n' then [""] + rest else [[s[0]] + rest[0]] + rest[1..]
  }

  /** `"\n".join(lines)` */
  function Join(lines: seq<string>): string {
    if lines == [] then ""
    else if |lines| == 1 then lines[0]
    else lines[0] + "\n" + Join(lines[1..])
  }

  predicate AllNoBreak(lines: seq<string>) {
    forall i :: 0 <= i < |lines| ==> NoBreak(lines[i])
  }

  lemma {:induction false} SplitHasNoBreaks(s: string)
    requires OnlyNewlines(s)
    ensures AllNoBreak(Split(s))
  {
    if s != "" {
      SplitHasNoBreaks(s[1..]);
    }
  }

  lemma {:induction false} SplitLine(line: string)
    requires NoBreak(line)
    ensures Split(line) == [line]
  {
    if line != "" {
      SplitLine(line[1..]);
      assert [line[0]] + line[1..] == line;
    }
  }

  lemma {:induction false} SplitConcat(a: string, b: string)
    ensures Split(a + "\n" + b) == Split(a) + Split(b)
  {
    var whole := a + "\n" + b;
    if a == "" {
      assert whole[1..] == b;
    } else {
      assert whole[1..] == a[1..] + "\n" + b;
      SplitConcat(a[1..], b);
    }
  }

  lemma {:induction false} SplitJoin(lines: seq<string>)
    requires lines != [] && AllNoBreak(lines)
    ensures Split(Join(lines)) == lines
  {
    SplitLine(lines[0]);
    if |lines| > 1 {
      SplitJoin(lines[1..]);
      SplitConcat(lines[0], Join(lines[1..]));
    }
  }

  lemma {:induction false} JoinIsText(lines: seq<string>)
    requires AllNoBreak(lines)
    ensures OnlyNewlines(Join(lines))
  {
    if |lines| > 1 {
      JoinIsText(lines[1..]);
    } else if |lines| == 1 {
      assert NoBreak(lines[0]);
    }
  }

  lemma {:induction false} JoinSplit(s: string)
    ensures Join(Split(s)) == s
  {
    if s != "" {
      JoinSplit(s[1..]);
      var rest := Split(s[1..]);
      if s[0] == '\n' {
        assert ([""] + rest)[1..] == rest;
      } else if |rest| > 1 {
        var lines := [[s[0]] + rest[0]] + rest[1..];
        assert lines[1..] == rest[1..];
        assert Join(lines) == [s[0]] + rest[0] + "\n" + Join(rest[1..]);
      }
    }
  }

  /** `s.splitlines()`: no line after a break at the very end, and `\r\n` is one break. */
  function SplitLines(s: string): seq<string> {
    if s == "" then []
    else if |s| >= 2 && s[0] == '\r' && s[1] == '\n' then [""] + SplitLines(s[2..])
    else if s[0] == '\n' || OtherBreak(s[0]) then [""] + SplitLines(s[1..])
    else
      var rest := SplitLines(s[1..]);
      if rest == [] then [[s[0]]] else [[s[0]] + rest[0]] + rest[1..]
  }

  /** Without other breaks the two ways of splitting differ only by a last empty line. */
  lemma {:induction false} SplitLinesIsSplit(s: string)
    requires OnlyNewlines(s)
    ensures Split(s) == SplitLines(s) || Split(s) == SplitLines(s) + [""]
    ensures s != "" ==> SplitLines(s) != []
  {
    assert !OtherBreak('\n') && OtherBreak('\r');
    hide OtherBreak;
    if s != "" {
      assert !OtherBreak(s[0]);
      SplitLinesIsSplit(s[1..]);
      var rest, c := SplitLines(s[1..]), [s[0]];
      if s[0] == '\n' {
        assert [""] + (rest + [""]) == ([""] + rest) + [""];
      } else if s[1..] != "" {
        assert (rest + [""])[0] == rest[0] && (rest + [""])[1..] == rest[1..] + [""];
        assert [c + rest[0]] + (rest[1..] + [""]) == ([c + rest[0]] + rest[1..]) + [""];
      } else {
        assert c + "" == c;
        assert Split(s) == [c];
      }
    }
  }

  predicate IsHeader(line: string) {
    var t := Strip(line);
    t != "" && t[0] == '[' && t[|t| - 1] == ']'
  }

  datatype Entry = Entry(key: string, value: string)

  /** The key and value of a line with a `=`. */
  function EntryOf(line: string): Option<Entry> {
    var t := Strip(line);
    var i := IndexOf(t, '=');
    if i < 0 then None else Some(Entry(Strip(t[..i]), Strip(t[i + 1..])))
  }

  predicate ValidKey(k: string) {
    k != "" && Stripped(k) && '=' !in k && NoBreak(k) && k[0] != '['
  }

  predicate ValidValue(v: string) {
    Stripped(v) && NoBreak(v)
  }

  predicate ValidSection(s: string) {
    s != "" && Stripped(s) && NoBreak(s) && s[0] == '[' && s[|s| - 1] == ']'
  }

  function Render(k: string, v: string): string {
    k + " = " + v
  }

  lemma {:induction false} StripTail(s: string, spaces: string)
    requires s != "" && Stripped(s) && forall c <- spaces :: IsSpace(c)
    ensures Strip(s + spaces) == s
    decreases |spaces|
  {
    if spaces == "" {
      assert s + spaces == s;
      StripTrims(s);
    } else {
      var front := spaces[..|spaces| - 1];
      StripTail(s, front);
      assert (s + spaces)[..|s + spaces| - 1] == s + front;
    }
  }

  lemma StripHead(v: string)
    requires Stripped(v)
    ensures Strip(" " + v) == v
  {
    assert (" " + v)[1..] == v;
    StripTrims(v);
  }

  lemma RenderedStripped(k: string, v: string)
    requires ValidKey(k) && ValidValue(v)
    ensures Strip(Render(k, v)) == if v == "" then k + " =" else k + " = " + v
  {
    hide Strip;
    var line := Render(k, v);
    if v == "" {
      assert line == (k + " =") + " ";
      StripTail(k + " =", " ");
    } else {
      assert line[0] == k[0] && line[|line| - 1] == v[|v| - 1];
      StripTrims(line);
    }
  }

  /** A written entry is read back, and is no section header. */
  lemma RenderedEntry(k: string, v: string)
    requires ValidKey(k) && ValidValue(v)
    ensures EntryOf(Render(k, v)) == Some(Entry(k, v))
    ensures !IsHeader(Render(k, v)) && NoBreak(Render(k, v))
  {
    hide Strip, IndexOf;
    RenderedStripped(k, v);
    var t := Strip(Render(k, v));
    var i := IndexOf(t, '=');
    IndexOfSuffix(k + " ", '=', if v == "" then "" else " " + v);
    assert t == (k + " ") + ['='] + if v == "" then "" else " " + v;
    assert i == |k| + 1;
    assert t[..i] == k + " ";
    StripTail(k, " ");
    if v == "" {
      assert t[i + 1..] == "";
      StripTrims("");
    } else {
      assert t[i + 1..] == " " + v;
      StripHead(v);
    }
  }
}
