/**
 Reading and updating one section of an ini text (linux/raofflineproxy/dolphin_cfg.py).
 `Updated` and `ExtractLines` say on lines what the source's loops compute, and lemmas say what an
 update leaves to be read.
 */
module IniSection {
  import opened Bytes
  import opened IniText

  /** A dict of updates in its order; `None` removes the key. */
  type Updates = seq<(string, Option<string>)>

  predicate DistinctUpdates(u: Updates) {
    forall i, j :: 0 <= i < j < |u| ==> u[i].0 != u[j].0
  }

  predicate ValidUpdates(u: Updates) {
    && DistinctUpdates(u)
    && forall i :: 0 <= i < |u| ==> ValidKey(u[i].0) && (u[i].1.Some? ==> ValidValue(u[i].1.value))
  }

  predicate AllSet(u: Updates) {
    forall i :: 0 <= i < |u| ==> u[i].1.Some?
  }

  function Lookup(u: Updates, key: string): (r: Option<Option<string>>)
    ensures r.None? ==> forall i :: 0 <= i < |u| ==> u[i].0 != key
    ensures r.Some? ==> exists i :: 0 <= i < |u| && u[i] == (key, r.value)
  {
    if u == [] then None else if u[0].0 == key then Some(u[0].1) else Lookup(u[1..], key)
  }

  /** `remaining.pop(key)` */
  function Without(u: Updates, key: string): (r: Updates)
    ensures Lookup(r, key).None? || !DistinctUpdates(u)
    ensures forall k :: k != key ==> Lookup(r, k) == Lookup(u, k)
    ensures forall i :: 0 <= i < |r| ==> r[i] in u
    ensures |r| <= |u|
  {
    if u == [] then []
    else if u[0].0 == key then u[1..]
    else [u[0]] + Without(u[1..], key)
  }

  /** The lines for what no existing line took. */
  function RenderAll(u: Updates): seq<string> {
    if u == [] then []
    else if u[0].1.Some? then [Render(u[0].0, u[0].1.value)] + RenderAll(u[1..])
    else RenderAll(u[1..])
  }

  function KeyOf(line: string): Option<string> {
    match EntryOf(line)
    case None => None
    case Some(e) => Some(e.key)
  }

  /** The lines of the section after the update: the first line of a key takes its value. */
  function Updated(block: seq<string>, u: Updates): seq<string> {
    if block == [] then RenderAll(u)
    else
      var key := KeyOf(block[0]);
      if key.None? || Lookup(u, key.value).None? then [block[0]] + Updated(block[1..], u)
      else
        var value := Lookup(u, key.value).value;
        (if value.Some? then [Render(key.value, value.value)] else [])
        + Updated(block[1..], Without(u, key.value))
  }

  // Where a section is.

  function FindSection(lines: seq<string>, section: string): (r: Option<nat>)
    ensures r.Some? ==> r.value < |lines| && Strip(lines[r.value]) == section
    ensures r.Some? ==> forall i :: 0 <= i < r.value ==> Strip(lines[i]) != section
    ensures r.None? ==> forall i :: 0 <= i < |lines| ==> Strip(lines[i]) != section
  {
    if lines == [] then None
    else if Strip(lines[0]) == section then Some(0)
    else
      match FindSection(lines[1..], section)
      case None => None
      case Some(i) => Some(i + 1)
  }

  /** The next header line from `from` on, or the end. */
  function SectionEnd(lines: seq<string>, from: nat): (r: nat)
    requires from <= |lines|
    ensures from <= r <= |lines|
    ensures forall i :: from <= i < r ==> !IsHeader(lines[i])
    ensures r < |lines| ==> IsHeader(lines[r])
    decreases |lines| - from
  {
    if from == |lines| || IsHeader(lines[from]) then from else SectionEnd(lines, from + 1)
  }

  function UpdatedLines(lines: seq<string>, u: Updates, section: string): seq<string>
    requires FindSection(lines, section).Some?
  {
    var start := FindSection(lines, section).value + 1;
    var end := SectionEnd(lines, start);
    lines[..start] + Updated(lines[start..end], u) + lines[end..]
  }

  function RStripNewlines(s: string): string {
    if s != "" && s[|s| - 1] == '\n' then RStripNewlines(s[..|s| - 1]) else s
  }

  function UpdatedText(content: string, u: Updates, section: string): string {
    var lines := Split(content);
    if FindSection(lines, section).Some? then Join(UpdatedLines(lines, u, section))
    else if RenderAll(u) == [] then content
    else RStripNewlines(content) + "\n" + section + "\n" + Join(RenderAll(u)) + "\n"
  }

  // The source's loops.

  /** `update_achievements_section` */
  method UpdateSection(content: string, updates: Updates, section: string) returns (r: string)
    requires DistinctUpdates(updates)
    ensures r == UpdatedText(content, updates, section)
  {
    var lines := Split(content);
    var found := FindSection(lines, section);
    if found.None? {
      var additions := RenderAll(updates);
      if additions == [] {
        return content;
      }
      return RStripNewlines(content) + "\n" + section + "\n" + Join(additions) + "\n";
    }
    hide IsHeader, Updated;
    var start := found.value + 1;
    var end := start;
    while end < |lines| && !IsHeader(lines[end])
      invariant start <= end <= |lines|
      invariant SectionEnd(lines, start) == SectionEnd(lines, end)
    {
      end := end + 1;
    }
    var block := UpdateBlock(lines[start..end], updates);
    r := Join(lines[..start] + block + lines[end..]);
  }

  /** The loop over the lines of the section. */
  method UpdateBlock(block: seq<string>, updates: Updates) returns (result: seq<string>)
    requires DistinctUpdates(updates)
    ensures result == Updated(block, updates)
  {
    hide KeyOf, Lookup, Without, Render;
    var remaining := updates;
    result := [];
    for index := 0 to |block|
      invariant result + Updated(block[index..], remaining) == Updated(block, updates)
    {
      var line := block[index];
      ghost var before, rest := result, block[index + 1..];
      assert block[index..][0] == line && block[index..][1..] == rest;
      var key := KeyOf(line);
      if key.None? {
        result := result + [line];
        AppendStep(before, [line], Updated(rest, remaining));
      } else {
        var value := Lookup(remaining, key.value);
        if value.None? {
          result := result + [line];
          AppendStep(before, [line], Updated(rest, remaining));
        } else {
          remaining := Without(remaining, key.value);
          var added := if value.value.Some? then [Render(key.value, value.value.value)] else [];
          result := result + added;
          AppendStep(before, added, Updated(rest, remaining));
        }
      }
    }
    assert block[|block|..] == [];
    result := result + RenderAll(remaining);
  }

  lemma AppendStep(before: seq<string>, added: seq<string>, rest: seq<string>)
    ensures before + (added + rest) == (before + added) + rest
  {
  }

  // Reading a value.

  function ExtractFrom(lines: seq<string>, inSection: bool, section: string, key: string): Option<string> {
    if lines == [] then None
    else if IsHeader(lines[0]) then ExtractFrom(lines[1..], Strip(lines[0]) == section, section, key)
    else if inSection && KeyOf(lines[0]) == Some(key) then Some(EntryOf(lines[0]).value.value)
    else ExtractFrom(lines[1..], inSection, section, key)
  }

  function Extract(content: string, key: string, section: string): Option<string> {
    ExtractFrom(SplitLines(content), false, section, key)
  }

  /** `extract_achievements_value` */
  method ExtractValue(content: string, key: string, section: string) returns (r: Option<string>)
    ensures r == Extract(content, key, section)
  {
    hide IsHeader;
    var lines := SplitLines(content);
    var inSection := false;
    for i := 0 to |lines|
      invariant ExtractFrom(lines, false, section, key) == ExtractFrom(lines[i..], inSection, section, key)
    {
      var line := lines[i];
      assert lines[i..][1..] == lines[i + 1..];
      if IsHeader(line) {
        inSection := Strip(line) == section;
      } else if inSection {
        var entry := EntryOf(line);
        if entry.Some? && entry.value.key == key {
          return Some(entry.value.value);
        }
      }
    }
    r := None;
  }

  // A text taken apart around the section.

  datatype Parts = Parts(before: seq<string>, header: string, block: seq<string>, after: seq<string>) {
    function Whole(): seq<string> {
      before + [header] + block + after
    }
  }

  predicate NoHeaders(lines: seq<string>) {
    forall i :: 0 <= i < |lines| ==> !IsHeader(lines[i])
  }

  predicate ValidParts(p: Parts, section: string) {
    && (forall i :: 0 <= i < |p.before| ==> Strip(p.before[i]) != section)
    && Strip(p.header) == section
    && NoHeaders(p.block)
    && (p.after != [] ==> IsHeader(p.after[0]))
  }

  function Or(a: Option<string>, b: Option<string>): Option<string> {
    if a.Some? then a else b
  }

  /** The first value of a key in lines without headers. */
  function FirstValue(block: seq<string>, key: string): Option<string> {
    if block == [] then None
    else if KeyOf(block[0]) == Some(key) then Some(EntryOf(block[0]).value.value)
    else FirstValue(block[1..], key)
  }

  /** What the parts say about any section and key. */
  function PartsValue(p: Parts, section: string, s: string, key: string): Option<string> {
    if s == section then Or(FirstValue(p.block, key), ExtractFrom(p.after, false, s, key))
    else Or(ExtractFrom(p.before, false, s, key), ExtractFrom(p.after, false, s, key))
  }

  function StateAfter(lines: seq<string>, inSection: bool, section: string): bool {
    if lines == [] then inSection
    else StateAfter(lines[1..], if IsHeader(lines[0]) then Strip(lines[0]) == section else inSection, section)
  }

  lemma {:induction false} ExtractConcat(a: seq<string>, b: seq<string>, inSection: bool, section: string, key: string)
    ensures ExtractFrom(a + b, inSection, section, key)
      == Or(ExtractFrom(a, inSection, section, key), ExtractFrom(b, StateAfter(a, inSection, section), section, key))
    decreases |a|
  {
    hide IsHeader, KeyOf;
    if a == [] {
      assert a + b == b;
    } else {
      assert (a + b)[0] == a[0] && (a + b)[1..] == a[1..] + b;
      ExtractConcat(a[1..], b, if IsHeader(a[0]) then Strip(a[0]) == section else inSection, section, key);
    }
  }

  lemma {:induction false} NeverInside(lines: seq<string>, section: string, key: string)
    requires forall i :: 0 <= i < |lines| ==> Strip(lines[i]) != section
    ensures ExtractFrom(lines, false, section, key).None? && !StateAfter(lines, false, section)
  {
    hide IsHeader, KeyOf;
    if lines != [] {
      NeverInside(lines[1..], section, key);
    }
  }

  lemma {:induction false} BlockValue(block: seq<string>, inSection: bool, section: string, key: string)
    requires NoHeaders(block)
    ensures ExtractFrom(block, inSection, section, key) == if inSection then FirstValue(block, key) else None
    ensures StateAfter(block, inSection, section) == inSection
  {
    hide IsHeader, KeyOf;
    if block != [] {
      BlockValue(block[1..], inSection, section, key);
    }
  }

  lemma ExtractParts(p: Parts, section: string, s: string, key: string)
    requires ValidParts(p, section) && ValidSection(section)
    ensures ExtractFrom(p.Whole(), false, s, key) == PartsValue(p, section, s, key)
  {
    hide KeyOf, FirstValue;
    HeaderIsHeader(p.header, section);
    assert p.Whole() == p.before + ([p.header] + (p.block + p.after));
    ExtractConcat(p.before, [p.header] + (p.block + p.after), false, s, key);
    ExtractConcat([p.header], p.block + p.after, StateAfter(p.before, false, s), s, key);
    ExtractConcat(p.block, p.after, s == section, s, key);
    BlockValue(p.block, s == section, s, key);
    if s == section {
      NeverInside(p.before, s, key);
    }
  }

  lemma HeaderIsHeader(line: string, section: string)
    requires Strip(line) == section && ValidSection(section)
    ensures IsHeader(line)
  {
  }

  function PartsOf(lines: seq<string>, section: string): (p: Parts)
    requires FindSection(lines, section).Some?
    ensures p.Whole() == lines
  {
    hide FindSection, SectionEnd, Strip, IsHeader;
    var i := FindSection(lines, section).value;
    var end := SectionEnd(lines, i + 1);
    assert lines[i + 1..] == lines[i + 1..end] + lines[end..];
    assert lines == lines[..i] + [lines[i]] + lines[i + 1..];
    Parts(lines[..i], lines[i], lines[i + 1..end], lines[end..])
  }

  lemma PartsOfIsValid(lines: seq<string>, section: string)
    requires FindSection(lines, section).Some?
    ensures ValidParts(PartsOf(lines, section), section)
  {
  }

  lemma {:induction false} FoundAt(lines: seq<string>, section: string, i: nat)
    requires i < |lines| && Strip(lines[i]) == section
    requires forall j :: 0 <= j < i ==> Strip(lines[j]) != section
    ensures FindSection(lines, section) == Some(i)
    decreases i
  {
    if i > 0 {
      assert Strip(lines[0]) != section;
      FoundAt(lines[1..], section, i - 1);
    }
  }

  lemma {:induction false} EndsAt(lines: seq<string>, from: nat, end: nat)
    requires from <= end <= |lines|
    requires forall i :: from <= i < end ==> !IsHeader(lines[i])
    requires end < |lines| ==> IsHeader(lines[end])
    ensures SectionEnd(lines, from) == end
    decreases end - from
  {
    hide IsHeader;
    if from < end {
      EndsAt(lines, from + 1, end);
    }
  }

  /** Valid parts are the ones that are found again. */
  lemma PartsFound(p: Parts, section: string)
    requires ValidParts(p, section)
    ensures FindSection(p.Whole(), section).Some? && PartsOf(p.Whole(), section) == p
  {
    hide IsHeader;
    var lines, i := p.Whole(), |p.before|;
    forall j | 0 <= j <= i
      ensures lines[j] == if j < i then p.before[j] else p.header
    {
    }
    FoundAt(lines, section, i);
    forall j | i + 1 <= j < i + 1 + |p.block|
      ensures lines[j] == p.block[j - i - 1]
    {
    }
    EndsAt(lines, i + 1, i + 1 + |p.block|);
    assert lines[..i] == p.before && lines[i + 1..i + 1 + |p.block|] == p.block &&
      lines[i + 1 + |p.block|..] == p.after;
  }

  // What an update does to the lines of the section.

  function KeyCount(block: seq<string>, key: string): nat {
    if block == [] then 0
    else (if KeyOf(block[0]) == Some(key) then 1 else 0) + KeyCount(block[1..], key)
  }

  lemma {:induction false} NoneWithoutKey(block: seq<string>, key: string)
    ensures FirstValue(block, key).None? <==> KeyCount(block, key) == 0
  {
    hide KeyOf;
    if block != [] {
      NoneWithoutKey(block[1..], key);
    }
  }

  lemma ValidWithout(u: Updates, key: string)
    requires ValidUpdates(u)
    ensures ValidUpdates(Without(u, key))
  {
    hide ValidKey, ValidValue;
    WithoutIsDistinct(u, key);
  }

  lemma {:induction false} WithoutIsDistinct(u: Updates, key: string)
    requires DistinctUpdates(u)
    ensures DistinctUpdates(Without(u, key))
  {
    if u != [] && u[0].0 != key {
      WithoutIsDistinct(u[1..], key);
      assert forall i :: 0 <= i < |Without(u[1..], key)| ==> Without(u[1..], key)[i] in u[1..];
    }
  }

  lemma RenderedKey(k: string, v: string)
    requires ValidKey(k) && ValidValue(v)
    ensures KeyOf(Render(k, v)) == Some(k) && EntryOf(Render(k, v)).value.value == v
    ensures !IsHeader(Render(k, v)) && NoBreak(Render(k, v))
  {
    RenderedEntry(k, v);
  }

  lemma {:induction false} RenderedValues(u: Updates, key: string)
    requires ValidUpdates(u)
    ensures NoHeaders(RenderAll(u)) && AllNoBreak(RenderAll(u))
    ensures FirstValue(RenderAll(u), key) == if Lookup(u, key).Some? then Lookup(u, key).value else None
    ensures KeyCount(RenderAll(u), key) == if Lookup(u, key).Some? && Lookup(u, key).value.Some? then 1 else 0
  {
    hide KeyOf, ValidKey, ValidValue, Render, IsHeader, NoBreak;
    if u != [] {
      RenderedValues(u[1..], key);
      var all := RenderAll(u);
      if u[0].1.Some? {
        RenderedKey(u[0].0, u[0].1.value);
        assert all[0] == Render(u[0].0, u[0].1.value) && all[1..] == RenderAll(u[1..]);
      }
      if u[0].0 == key {
        assert Lookup(u[1..], key).None?;
      }
    }
  }

  /** After an update every key of it that got a value has that value, and other keys theirs. */
  lemma {:induction false} UpdatedValues(block: seq<string>, u: Updates, key: string)
    requires ValidUpdates(u) && NoHeaders(block)
    ensures NoHeaders(Updated(block, u))
    ensures Lookup(u, key).None? ==> FirstValue(Updated(block, u), key) == FirstValue(block, key)
    ensures Lookup(u, key).Some? && Lookup(u, key).value.Some? ==>
      && FirstValue(Updated(block, u), key) == Lookup(u, key).value
      && KeyCount(Updated(block, u), key) == if KeyCount(block, key) == 0 then 1 else KeyCount(block, key)
    ensures Lookup(u, key) == Some(None) && KeyCount(block, key) <= 1 ==>
      FirstValue(Updated(block, u), key).None?
    ensures Lookup(u, key).None? ==> KeyCount(Updated(block, u), key) == KeyCount(block, key)
    decreases |block|
  {
    hide KeyOf, ValidKey, ValidValue, Render, IsHeader, NoBreak;
    if block == [] {
      RenderedValues(u, key);
    } else {
      var line, rest := block[0], block[1..];
      var k := KeyOf(line);
      if k.None? || Lookup(u, k.value).None? {
        UpdatedValues(rest, u, key);
        var to := Updated(block, u);
        assert to[0] == line && to[1..] == Updated(rest, u);
      } else {
        ValidWithout(u, k.value);
        UpdatedValues(rest, Without(u, k.value), key);
        NoneWithoutKey(rest, key);
        NoneWithoutKey(Updated(rest, Without(u, k.value)), key);
        var value := Lookup(u, k.value).value;
        LookupValid(u, k.value);
        var to := Updated(block, u);
        if value.Some? {
          RenderedKey(k.value, value.value);
          assert to[0] == Render(k.value, value.value) && to[1..] == Updated(rest, Without(u, k.value));
        } else {
          assert to == Updated(rest, Without(u, k.value));
        }
      }
    }
  }

  lemma LookupValid(u: Updates, key: string)
    requires ValidUpdates(u) && Lookup(u, key).Some?
    ensures ValidKey(key) && (Lookup(u, key).value.Some? ==> ValidValue(Lookup(u, key).value.value))
  {
    hide ValidKey, ValidValue;
  }

  lemma {:induction false} UpdatedNoBreaks(block: seq<string>, u: Updates)
    requires ValidUpdates(u) && AllNoBreak(block)
    ensures AllNoBreak(Updated(block, u))
    decreases |block|
  {
    hide KeyOf, ValidKey, ValidValue, Render, NoBreak;
    if block == [] {
      RenderedValues(u, "");
    } else {
      var k := KeyOf(block[0]);
      if k.None? || Lookup(u, k.value).None? {
        UpdatedNoBreaks(block[1..], u);
      } else {
        ValidWithout(u, k.value);
        UpdatedNoBreaks(block[1..], Without(u, k.value));
        LookupValid(u, k.value);
        if Lookup(u, k.value).value.Some? {
          RenderedKey(k.value, Lookup(u, k.value).value.value);
        }
      }
    }
  }

  /** Updating again with the same values finds every line as it writes it. */
  lemma {:induction false} UpdatedTwice(block: seq<string>, u: Updates)
    requires ValidUpdates(u) && AllSet(u)
    ensures Updated(Updated(block, u), u) == Updated(block, u)
    decreases |block|
  {
    hide KeyOf, ValidKey, ValidValue, Render;
    if block == [] {
      RenderedTwice(u);
    } else {
      var line, rest := block[0], block[1..];
      var k := KeyOf(line);
      var to := Updated(block, u);
      if k.None? || Lookup(u, k.value).None? {
        UpdatedTwice(rest, u);
        assert to[0] == line && to[1..] == Updated(rest, u);
      } else {
        ValidWithout(u, k.value);
        UpdatedTwice(rest, Without(u, k.value));
        LookupValid(u, k.value);
        var value := Lookup(u, k.value).value.value;
        RenderedKey(k.value, value);
        assert to[0] == Render(k.value, value) && to[1..] == Updated(rest, Without(u, k.value));
      }
    }
  }

  lemma {:induction false} RenderedTwice(u: Updates)
    requires ValidUpdates(u) && AllSet(u)
    ensures Updated(RenderAll(u), u) == RenderAll(u)
  {
    hide KeyOf, ValidKey, ValidValue, Render;
    if u != [] {
      RenderedTwice(u[1..]);
      RenderedKey(u[0].0, u[0].1.value);
      var all := RenderAll(u);
      assert all[0] == Render(u[0].0, u[0].1.value) && all[1..] == RenderAll(u[1..]);
      assert Without(u, u[0].0) == u[1..];
    }
  }
}
