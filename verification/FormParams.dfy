/**
 Form bodies and the rewriting of their parameters (linux/raofflineproxy/utils.py), with Python's
 `parse_qsl`, `unquote_plus` and `quote_plus`: percent-encoding as in section 2.1 of RFC 3986 and
 `+` for a space.
 */
module FormParams {
  import opened Bytes
  import Text

  datatype Param = Param(name: string, value: string)

  /** UTF-8; `decode` puts a replacement character for what is not UTF-8. */
  datatype Utf8 = Utf8(encode: string -> Bytes, decode: Bytes -> string)

  ghost predicate IsUtf8(u: Utf8) {
    && (forall s :: u.decode(u.encode(s)) == s)
    && (forall b :: AllAscii(b) ==> u.decode(b) == Chars(b))
    && (forall b :: |u.decode(b)| <= |b|)
  }

  predicate AllAscii(b: Bytes) {
    forall i :: 0 <= i < |b| ==> b[i] < 0x80
  }

  function Chars(b: Bytes): string
    requires AllAscii(b)
  {
    seq(|b|, i requires 0 <= i < |b| => b[i] as char)
  }

  predicate IsAscii(c: char) {
    c as int < 0x80
  }

  // Decoding.

  function HexDigit(c: char): Option<nat> {
    if '0' <= c <= '9' then Some((c - '0') as nat)
    else if 'A' <= c <= 'F' then Some((c - 'A') as nat + 10)
    else if 'a' <= c <= 'f' then Some((c - 'a') as nat + 10)
    else None
  }

  /** `unquote_to_bytes` on ASCII text: a `%` without two hex digits stays. */
  function PercentBytes(s: string): (b: Bytes)
    requires forall i :: 0 <= i < |s| ==> IsAscii(s[i])
    ensures |b| <= |s|
  {
    if s == "" then []
    else if s[0] == '%' && |s| >= 3 && HexDigit(s[1]).Some? && HexDigit(s[2]).Some? then
      [HexDigit(s[1]).value * 16 + HexDigit(s[2]).value] + PercentBytes(s[3..])
    else
      assert IsAscii(s[0]);
      [s[0] as int] + PercentBytes(s[1..])
  }

  /** The number of ASCII characters at the front. */
  function AsciiRun(s: string): (n: nat)
    ensures n <= |s| && forall i :: 0 <= i < n ==> IsAscii(s[i])
    ensures n < |s| ==> !IsAscii(s[n])
  {
    if s != "" && IsAscii(s[0]) then AsciiRun(s[1..]) + 1 else 0
  }

  function UnquoteRuns(u: Utf8, s: string): string {
    if s == "" then ""
    else
      var n := AsciiRun(s);
      if n == 0 then [s[0]] + UnquoteRuns(u, s[1..]) else u.decode(PercentBytes(s[..n])) + UnquoteRuns(u, s[n..])
  }

  function PlusToSpace(s: string): string {
    seq(|s|, i requires 0 <= i < |s| => if s[i] == '+' then ' ' else s[i])
  }

  function UnquotePlus(u: Utf8, s: string): string {
    var t := PlusToSpace(s);
    if '%' in t then UnquoteRuns(u, t) else t
  }

  /** One piece between two `&`; an empty one is skipped, a value may be missing. */
  function ParsePiece(u: Utf8, piece: string): seq<Param> {
    if piece == "" then []
    else
      var eq := Text.IndexOf(piece, '=');
      if eq < 0 then [Param(UnquotePlus(u, piece), UnquotePlus(u, ""))]
      else [Param(UnquotePlus(u, piece[..eq]), UnquotePlus(u, piece[eq + 1..]))]
  }

  /** `parse_qsl(body, keep_blank_values=True)` */
  function Parse(u: Utf8, body: string): seq<Param> {
    var amp := Text.IndexOf(body, '&');
    if amp < 0 then ParsePiece(u, body) else ParsePiece(u, body[..amp]) + Parse(u, body[amp + 1..])
  }

  /** A piece without `=` is a name without a value, and nothing between two `&` is skipped. */
  lemma PieceWithoutValue(u: Utf8, piece: string)
    requires '=' !in piece
    ensures ParsePiece(u, piece) == if piece == "" then [] else [Param(UnquotePlus(u, piece), "")]
  {
    assert PlusToSpace("") == "";
  }

  // Encoding.

  predicate Unreserved(b: byte) {
    || 'A' as int <= b <= 'Z' as int || 'a' as int <= b <= 'z' as int || '0' as int <= b <= '9' as int
    || b == '_' as int || b == '.' as int || b == '-' as int || b == '~' as int
  }

  function Hex(n: nat): char
    requires n < 16
  {
    if n < 10 then '0' + n as char else 'A' + (n - 10) as char
  }

  function QuoteByte(b: byte): string {
    if b == ' ' as int then "+" else if Unreserved(b) then [b as char] else ['%', Hex(b / 16), Hex(b % 16)]
  }

  /** Letters, digits and `_.-~` stay, a space becomes `+`, and the rest is two hex digits, none of them in
      lower case. */
  lemma QuotedAs(b: byte)
    ensures b == 32 ==> QuoteByte(b) == "+"
    ensures QuoteByte(b) == [b as char] <==>
      65 <= b <= 90 || 97 <= b <= 122 || 48 <= b <= 57 || b in {45, 46, 95, 126}
    ensures var q := QuoteByte(b);
      b == 32 || q == [b as char]
      || (|q| == 3 && q[0] == '%' && HexDigit(q[1]) == Some(b / 16) && HexDigit(q[2]) == Some(b % 16)
          && !('a' <= q[1] <= 'f') && !('a' <= q[2] <= 'f'))
  {
  }

  /** Hex digits are read in either case, and nothing else is one. */
  lemma HexDigitsRead(c: char, k: nat)
    requires k < 6
    ensures HexDigit('A' + k as char) == HexDigit('a' + k as char) == Some(10 + k)
    ensures HexDigit('0' + k as char) == Some(k) && HexDigit('4' + k as char) == Some(4 + k)
    ensures HexDigit(c).Some? <==> 48 <= c as int <= 57 || 65 <= c as int <= 70 || 97 <= c as int <= 102
  {
  }

  function QuoteBytes(b: Bytes): string {
    if b == [] then "" else QuoteByte(b[0]) + QuoteBytes(b[1..])
  }

  function QuotePlus(u: Utf8, s: string): string {
    QuoteBytes(u.encode(s))
  }

  /** How a parameter is written: the name as it is, the value encoded. */
  function Item(u: Utf8, p: Param): string {
    p.name + "=" + QuotePlus(u, p.value)
  }

  function Render(u: Utf8, params: seq<Param>): string {
    if params == [] then ""
    else if |params| == 1 then Item(u, params[0])
    else Item(u, params[0]) + "&" + Render(u, params[1..])
  }

  // The value survives.

  predicate Ascii(s: string) {
    forall i :: 0 <= i < |s| ==> IsAscii(s[i])
  }

  lemma HexDigits(n: nat)
    requires n < 16
    ensures HexDigit(Hex(n)) == Some(n) && IsAscii(Hex(n)) && Hex(n) != '+' && Hex(n) != '&' && Hex(n) != '='
  {
  }

  /** One quoted byte, with `+` already read as a space. */
  lemma QuotedByte(b: byte, rest: string)
    requires Ascii(rest)
    ensures var t := PlusToSpace(QuoteByte(b));
      && Ascii(t) && Ascii(t + rest) && '&' !in QuoteByte(b) && '=' !in QuoteByte(b)
      && PercentBytes(t + rest) == [b] + PercentBytes(rest)
      && ('%' !in t ==> b < 0x80 && t == [b as char])
  {
    HexDigits(b / 16);
    HexDigits(b % 16);
    var t := PlusToSpace(QuoteByte(b));
    if b == ' ' as int || Unreserved(b) {
      assert (t + rest)[1..] == rest;
    } else {
      assert t == QuoteByte(b);
      assert (t + rest)[3..] == rest;
      assert (t + rest)[1] == Hex(b / 16) && (t + rest)[2] == Hex(b % 16);
      assert t[0] == '%';
    }
  }

  lemma PlusToSpaceConcat(a: string, b: string)
    ensures PlusToSpace(a + b) == PlusToSpace(a) + PlusToSpace(b)
  {
  }

  lemma {:induction false} QuotedBytes(b: Bytes)
    ensures var s, t := QuoteBytes(b), PlusToSpace(QuoteBytes(b));
      && '&' !in s && '=' !in s && Ascii(t) && PercentBytes(t) == b
      && ('%' !in t ==> AllAscii(b) && t == Chars(b))
  {
    hide QuoteByte, PlusToSpace, PercentBytes;
    if b == [] {
      NothingQuoted();
    } else {
      QuotedBytes(b[1..]);
      var head, tail := PlusToSpace(QuoteByte(b[0])), PlusToSpace(QuoteBytes(b[1..]));
      PlusToSpaceConcat(QuoteByte(b[0]), QuoteBytes(b[1..]));
      QuotedByte(b[0], tail);
      assert b == [b[0]] + b[1..];
      var t := head + tail;
      if '%' !in t {
        assert forall c :: c in head || c in tail ==> c in t;
        assert forall i :: 1 <= i < |b| ==> b[i] == b[1..][i - 1];
        assert Chars(b) == [b[0] as char] + Chars(b[1..]);
      }
    }
  }

  lemma NothingQuoted()
    ensures PlusToSpace("") == "" && PercentBytes("") == [] && Chars([]) == ""
  {
  }

  lemma QuoteUnquotes(u: Utf8, s: string)
    requires IsUtf8(u)
    ensures UnquotePlus(u, QuotePlus(u, s)) == s
  {
    var t := PlusToSpace(QuotePlus(u, s));
    QuotedBytes(u.encode(s));
    if '%' in t {
      assert AsciiRun(t) == |t|;
      assert t[..|t|] == t;
      assert UnquoteRuns(u, t[|t|..]) == "";
    }
  }

  // Which parameter lists survive being written and parsed again.

  /** A name that reads as itself when written as it is. */
  predicate ReadsAsItself(u: Utf8, name: string) {
    '&' !in name && '=' !in name && UnquotePlus(u, name) == name
  }

  predicate AllReadAsThemselves(u: Utf8, params: seq<Param>) {
    forall i :: 0 <= i < |params| ==> ReadsAsItself(u, params[i].name)
  }

  lemma {:induction false} ParseConcat(u: Utf8, a: string, b: string)
    ensures Parse(u, a + "&" + b) == Parse(u, a) + Parse(u, b)
    decreases |a|
  {
    hide ParsePiece, Text.IndexOf;
    var s := a + "&" + b;
    assert s == a + ['&'] + b;
    var amp := Text.IndexOf(a, '&');
    if amp < 0 {
      Text.IndexOfSuffix(a, '&', b);
      assert s[..|a|] == a && s[|a| + 1..] == b;
    } else {
      var head, tail := a[..amp], a[amp + 1..];
      assert s == head + ['&'] + (tail + "&" + b);
      Text.IndexOfSuffix(head, '&', tail + "&" + b);
      assert s[..amp] == head && s[amp + 1..] == tail + "&" + b;
      ParseConcat(u, tail, b);
    }
  }

  lemma ParseOnePiece(u: Utf8, piece: string)
    requires '&' !in piece
    ensures Parse(u, piece) == ParsePiece(u, piece)
  {
    hide ParsePiece, Text.IndexOf;
  }

  lemma ParseItem(u: Utf8, p: Param)
    requires IsUtf8(u) && '&' !in p.name && '=' !in p.name
    ensures Parse(u, Item(u, p)) == [Param(UnquotePlus(u, p.name), p.value)]
  {
    hide UnquotePlus, QuotePlus, Text.IndexOf, IsUtf8;
    QuotedBytes(u.encode(p.value));
    QuoteUnquotes(u, p.value);
    var quoted := QuotePlus(u, p.value);
    assert quoted == QuoteBytes(u.encode(p.value)) by { QuoteIsBytes(u, p.value); }
    var item := Item(u, p);
    assert item == p.name + ['='] + quoted;
    Text.IndexOfSuffix(p.name, '=', quoted);
    assert item[..|p.name|] == p.name && item[|p.name| + 1..] == quoted;
    ParseOnePiece(u, item);
  }

  lemma QuoteIsBytes(u: Utf8, s: string)
    ensures QuotePlus(u, s) == QuoteBytes(u.encode(s))
  {
  }

  lemma {:induction false} UnquoteRunsShort(u: Utf8, s: string)
    requires IsUtf8(u)
    ensures |UnquoteRuns(u, s)| <= |s|
  {
    if s != "" {
      var n := AsciiRun(s);
      UnquoteRunsShort(u, if n == 0 then s[1..] else s[n..]);
    }
  }

  lemma UnquoteShort(u: Utf8, s: string)
    requires IsUtf8(u)
    ensures |UnquotePlus(u, s)| <= |s|
  {
    UnquoteRunsShort(u, PlusToSpace(s));
  }

  /** A name with `&` or `=` in it comes back shorter. */
  lemma {:induction false} FirstNameShort(u: Utf8, name: string, rest: string)
    requires IsUtf8(u) && '&' !in rest
    ensures var params := Parse(u, name + "=" + rest);
      && params != [] && |params[0].name| <= |name|
      && ('&' in name || '=' in name ==> |params[0].name| < |name|)
  {
    hide UnquotePlus, IsUtf8, Text.IndexOf;
    var s := name + "=" + rest;
    var amp := Text.IndexOf(name, '&');
    if amp >= 0 {
      var head, tail := name[..amp], name[amp + 1..];
      assert s == head + "&" + (tail + "=" + rest);
      ParseConcat(u, head, tail + "=" + rest);
      ParseOnePiece(u, head);
      FirstNameShort(u, tail, rest);
      PieceNameShort(u, head);
    } else {
      ParseOnePiece(u, s);
      var eq := Text.IndexOf(name, '=');
      if eq < 0 {
        assert s == name + ['='] + rest;
        Text.IndexOfSuffix(name, '=', rest);
        assert s[..|name|] == name;
        UnquoteShort(u, name);
      } else {
        assert s == name[..eq] + ['='] + (name[eq + 1..] + "=" + rest);
        Text.IndexOfSuffix(name[..eq], '=', name[eq + 1..] + "=" + rest);
        assert s[..eq] == name[..eq];
        UnquoteShort(u, name[..eq]);
      }
    }
  }

  lemma PieceNameShort(u: Utf8, piece: string)
    requires IsUtf8(u)
    ensures piece != "" ==> |ParsePiece(u, piece)| == 1 && |ParsePiece(u, piece)[0].name| <= |piece|
  {
    hide UnquotePlus, IsUtf8, Text.IndexOf;
    if piece != "" {
      var eq := Text.IndexOf(piece, '=');
      UnquoteShort(u, if eq < 0 then piece else piece[..eq]);
    }
  }

  /** Writing a parameter list and parsing it gives the list exactly when every name reads as itself. */
  lemma {:induction false} RenderParsesExactly(u: Utf8, params: seq<Param>)
    requires IsUtf8(u)
    ensures Parse(u, Render(u, params)) == params <==> AllReadAsThemselves(u, params)
  {
    hide UnquotePlus, IsUtf8, Parse, Item, ReadsAsItself;
    if params == [] {
      NothingParsed(u);
    } else {
      var p, rest := params[0], params[1..];
      RenderSplits(u, params);
      FirstItem(u, p);
      RenderParsesExactly(u, rest);
      var first, others := Parse(u, Item(u, p)), Parse(u, Render(u, rest));
      assert params == [p] + rest;
      if AllReadAsThemselves(u, params) {
        assert AllReadAsThemselves(u, rest) by {
          assert forall i :: 0 <= i < |rest| ==> rest[i] == params[i + 1];
        }
      }
      if first + others == params {
        assert (first + others)[0] == first[0];
        assert first == [p];
        assert (first + others)[1..] == others;
        assert forall i :: 1 <= i < |params| ==> params[i] == rest[i - 1];
      }
    }
  }

  lemma NothingParsed(u: Utf8)
    ensures Parse(u, "") == []
  {
  }

  lemma RenderSplits(u: Utf8, params: seq<Param>)
    requires params != []
    ensures Parse(u, Render(u, params)) == Parse(u, Item(u, params[0])) + Parse(u, Render(u, params[1..]))
  {
    hide Parse, Item;
    NothingParsed(u);
    if |params| == 1 {
      assert params[1..] == [];
    } else {
      ParseConcat(u, Item(u, params[0]), Render(u, params[1..]));
    }
  }

  /** The first thing parsed from an item is the item exactly when its name reads as itself. */
  lemma FirstItem(u: Utf8, p: Param)
    requires IsUtf8(u)
    ensures var first := Parse(u, Item(u, p));
      && first != []
      && (ReadsAsItself(u, p.name) ==> first == [p])
      && (first[0] == p ==> ReadsAsItself(u, p.name) && first == [p])
  {
    hide UnquotePlus, IsUtf8, Parse;
    QuoteIsBytes(u, p.value);
    QuotedBytes(u.encode(p.value));
    FirstNameShort(u, p.name, QuotePlus(u, p.value));
    if '&' !in p.name && '=' !in p.name {
      ParseItem(u, p);
    }
  }

  // Replacing one parameter.

  /** Where `name` stands first, or the length of the list. */
  function FirstIndex(params: seq<Param>, name: string): (k: nat)
    ensures k <= |params|
    ensures k < |params| ==> params[k].name == name
    ensures forall i :: 0 <= i < k ==> params[i].name != name
  {
    if params == [] || params[0].name == name then 0 else FirstIndex(params[1..], name) + 1
  }

  function Without(params: seq<Param>, names: set<string>): seq<Param> {
    if params == [] then []
    else (if params[0].name in names then [] else [params[0]]) + Without(params[1..], names)
  }

  /** The first `name` gets the value and later ones go; a missing one is appended. */
  function Updated(params: seq<Param>, name: string, value: string): seq<Param> {
    var k := FirstIndex(params, name);
    params[..k] + [Param(name, value)] + if k < |params| then Without(params[k + 1..], {name}) else []
  }

  /** `"&".join(items)` */
  function Join(items: seq<string>): string {
    if items == [] then "" else if |items| == 1 then items[0] else items[0] + "&" + Join(items[1..])
  }

  function Items(u: Utf8, params: seq<Param>): (items: seq<string>)
    ensures |items| == |params| && forall i :: 0 <= i < |items| ==> items[i] == Item(u, params[i])
  {
    seq(|params|, i requires 0 <= i < |params| => Item(u, params[i]))
  }

  lemma {:induction false} JoinIsRender(u: Utf8, params: seq<Param>)
    ensures Join(Items(u, params)) == Render(u, params)
  {
    hide Item;
    if |params| > 1 {
      assert Items(u, params)[1..] == Items(u, params[1..]);
      JoinIsRender(u, params[1..]);
    }
  }

  lemma {:induction false} WithoutAppends(a: seq<Param>, b: seq<Param>, names: set<string>)
    ensures Without(a + b, names) == Without(a, names) + Without(b, names)
  {
    if a == [] {
      assert a + b == b;
    } else {
      var first := if a[0].name in names then [] else [a[0]];
      assert (a + b)[0] == a[0] && (a + b)[1..] == a[1..] + b;
      WithoutAppends(a[1..], b, names);
      assert first + (Without(a[1..], names) + Without(b, names)) == first + Without(a[1..], names) + Without(b, names);
    }
  }

  lemma WithoutOneMore(params: seq<Param>, i: nat, names: set<string>)
    requires i < |params|
    ensures Without(params[..i + 1], names)
      == Without(params[..i], names) + if params[i].name in names then [] else [params[i]]
  {
    WithoutAppends(params[..i], [params[i]], names);
    assert params[..i + 1] == params[..i] + [params[i]];
    assert Without([params[i]], names) == if params[i].name in names then [] else [params[i]];
  }

  /** `replace_or_append_form_param` */
  method ReplaceOrAppendFormParam(u: Utf8, body: string, name: string, value: string) returns (r: string)
    ensures r == Render(u, Updated(Parse(u, body), name, value))
  {
    hide Parse, QuotePlus, Without;
    var params := Parse(u, body);
    var encoded := QuotePlus(u, value);
    var replaced := false;
    var updated: seq<string> := [];
    ghost var k := FirstIndex(params, name);
    ghost var kept: seq<Param> := [];
    for i := 0 to |params|
      invariant replaced <==> k < i
      invariant updated == Items(u, kept)
      invariant i <= k ==> kept == params[..i]
      invariant i > k ==> kept == params[..k] + [Param(name, value)] + Without(params[k + 1..i], {name})
    {
      var p := params[i];
      if i > k {
        WithoutOneMore(params[k + 1..], i - k - 1, {name});
        assert params[k + 1..][..i - k] == params[k + 1..i + 1] && params[k + 1..][..i - k - 1] == params[k + 1..i];
      }
      if p.name == name && !replaced {
        updated := updated + [p.name + "=" + encoded];
        kept := kept + [Param(name, value)];
        replaced := true;
        NothingWithout({name});
        assert params[k + 1..i + 1] == [];
      } else if p.name == name {
        continue;
      } else {
        updated := updated + [p.name + "=" + QuotePlus(u, p.value)];
        kept := kept + [p];
      }
    }
    if !replaced {
      updated := updated + [name + "=" + encoded];
      kept := kept + [Param(name, value)];
    } else {
      assert params[k + 1..|params|] == params[k + 1..];
    }
    assert kept == Updated(params, name, value);
    assert updated == Items(u, kept);
    JoinIsRender(u, kept);
    r := Join(updated);
  }

  lemma NothingWithout(names: set<string>)
    ensures Without([], names) == []
  {
  }
}
