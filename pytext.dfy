/**
 * Python `str` behaviour the core relies on: `str.split()` without arguments
 * (used to build the rank and suit tokens) and `repr` of a `str` (the `!r`
 * conversion in the record representations), together with a parser for the
 * literals `repr` produces.
 */
module PyText {
  import opened Results

  // ---------------------------------------------------------------------------
  // str.split()
  // ---------------------------------------------------------------------------

  /** The characters Python's `str.isspace` accepts, which `str.split()` separates on. */
  predicate IsSpace(c: char) {
    || ('\t' <= c <= '\r')                       // \t \n \v \f \r
    || ('\U{1C}' <= c <= '\U{1F}')               // file, group, record and unit separators
    || c == ' '
    || c == '\U{85}' || c == '\U{A0}' || c == '\U{1680}'
    || ('\U{2000}' <= c <= '\U{200A}')
    || c == '\U{2028}' || c == '\U{2029}' || c == '\U{202F}' || c == '\U{205F}'
    || c == '\U{3000}'
  }

  /** A token `str.split()` can produce: non-empty and free of whitespace. */
  predicate IsToken(w: string) {
    |w| > 0 && forall k :: 0 <= k < |w| ==> !IsSpace(w[k])
  }

  /** The text left after the leading whitespace. */
  function DropSpace(s: string): (r: string)
    ensures |r| <= |s| && r == s[|s| - |r|..]
    ensures r == [] || !IsSpace(r[0])
    ensures forall k :: 0 <= k < |s| - |r| ==> IsSpace(s[k])
  {
    if s != [] && IsSpace(s[0]) then
      var r := DropSpace(s[1..]);
      assert s[1..][|s| - 1 - |r|..] == s[|s| - |r|..];
      assert forall k :: 1 <= k < |s| - |r| ==> s[k] == s[1..][k - 1];
      r
    else s
  }

  /** The length of the longest whitespace-free prefix. */
  function WordLength(s: string): (n: nat)
    ensures n <= |s|
    ensures forall k :: 0 <= k < n ==> !IsSpace(s[k])
    ensures n == |s| || IsSpace(s[n])
  {
    if s == [] || IsSpace(s[0]) then 0 else 1 + WordLength(s[1..])
  }

  /**
   * `s.split()`: the maximal runs of non-whitespace characters, in order;
   * leading, trailing and repeated whitespace produce no empty tokens.
   */
  function Split(s: string): (r: seq<string>)
    ensures |r| <= |s|
    decreases |s|
  {
    var t := DropSpace(s);
    if t == [] then []
    else
      var n := WordLength(t);
      [t[..n]] + Split(t[n..])
  }

  /** Every token `str.split()` produces is non-empty and free of whitespace. */
  lemma {:induction false} SplitTokens(s: string)
    ensures forall i :: 0 <= i < |Split(s)| ==> IsToken(Split(s)[i])
    decreases |s|
  {
    var t := DropSpace(s);
    if t != [] {
      var n := WordLength(t);
      SplitStep(s);
      assert Split(s) == [t[..n]] + Split(t[n..]);
      WordIsToken(t);
      SplitTokens(t[n..]);
      TokensCons(t[..n], Split(t[n..]));
    }
  }

  /** A text that starts with a non-whitespace character starts with a token. */
  lemma WordIsToken(t: string)
    requires t != [] && !IsSpace(t[0])
    ensures IsToken(t[..WordLength(t)])
  {
    var n := WordLength(t);
    forall k | 0 <= k < n ensures !IsSpace(t[..n][k]) {
      assert t[..n][k] == t[k];
    }
  }

  lemma TokensCons(w: string, ws: seq<string>)
    requires IsToken(w) && forall i :: 0 <= i < |ws| ==> IsToken(ws[i])
    ensures forall i :: 0 <= i < |[w] + ws| ==> IsToken(([w] + ws)[i])
  {
    forall i | 0 <= i < |[w] + ws| ensures IsToken(([w] + ws)[i]) {
      if i > 0 {
        assert ([w] + ws)[i] == ws[i - 1];
      }
    }
  }

  /** `sep.join(ws)`: the strings in order with `sep` between neighbours. */
  function Join(ws: seq<string>, sep: string): string {
    JoinFrom(ws, 0, sep)
  }

  /** `sep.join(ws[i:])` */
  function JoinFrom(ws: seq<string>, i: nat, sep: string): string
    decreases |ws| - i
  {
    if i >= |ws| then ""
    else if i == |ws| - 1 then ws[i]
    else ws[i] + sep + JoinFrom(ws, i + 1, sep)
  }

  lemma {:induction false} JoinFromShift(ws: seq<string>, i: nat, sep: string)
    requires 0 < |ws|
    ensures JoinFrom(ws, i + 1, sep) == JoinFrom(ws[1..], i, sep)
    decreases |ws| - i
  {
    if i + 1 < |ws| - 1 {
      JoinFromShift(ws, i + 1, sep);
    }
  }

  /** Joining one string gives it back. */
  lemma JoinOne(ws: seq<string>, sep: string)
    requires |ws| == 1
    ensures Join(ws, sep) == ws[0]
  {
  }

  /** Joining at least two strings is the first, the separator, and the rest joined. */
  lemma JoinCons(ws: seq<string>, sep: string)
    requires |ws| > 1
    ensures Join(ws, sep) == ws[0] + sep + Join(ws[1..], sep)
  {
    JoinFromShift(ws, 0, sep);
  }

  /** All characters of the strings, in order. */
  function Concat(ws: seq<string>): string {
    if ws == [] then "" else ws[0] + Concat(ws[1..])
  }

  /** The non-whitespace characters of a string, in order. */
  function RemoveSpace(s: string): string {
    if s == [] then "" else (if IsSpace(s[0]) then "" else [s[0]]) + RemoveSpace(s[1..])
  }

  lemma {:induction false} DropSpaceOfToken(w: string, rest: string)
    requires IsToken(w)
    ensures DropSpace(w + rest) == w + rest
  {
    assert (w + rest)[0] == w[0];
  }

  lemma {:induction false} WordLengthOfToken(w: string, rest: string)
    requires forall k :: 0 <= k < |w| ==> !IsSpace(w[k])
    requires rest == [] || IsSpace(rest[0])
    ensures WordLength(w + rest) == |w|
  {
    if w != [] {
      assert (w + rest)[0] == w[0];
      assert (w + rest)[1..] == w[1..] + rest;
      WordLengthOfToken(w[1..], rest);
    } else {
      assert w + rest == rest;
    }
  }

  lemma {:induction false} SplitSkipsSpace(sep: string, rest: string)
    requires forall k :: 0 <= k < |sep| ==> IsSpace(sep[k])
    ensures Split(sep + rest) == Split(rest)
  {
    if sep != [] {
      assert (sep + rest)[0] == sep[0];
      assert (sep + rest)[1..] == sep[1..] + rest;
      SplitSkipsSpace(sep[1..], rest);
    } else {
      assert sep + rest == rest;
    }
  }

  /** A token followed by whitespace (or nothing) splits off as the first token. */
  lemma SplitToken(w: string, rest: string)
    requires IsToken(w)
    requires rest == [] || IsSpace(rest[0])
    ensures Split(w + rest) == [w] + Split(rest)
  {
    DropSpaceOfToken(w, rest);
    WordLengthOfToken(w, rest);
    assert (w + rest)[..|w|] == w;
    assert (w + rest)[|w|..] == rest;
  }

  /** A token, a whitespace separator and more text: the token splits off and the separator vanishes. */
  lemma SplitTokenSep(w: string, sep: string, tail: string)
    requires IsToken(w)
    requires |sep| > 0 && forall k :: 0 <= k < |sep| ==> IsSpace(sep[k])
    ensures Split(w + sep + tail) == [w] + Split(tail)
  {
    var rest := sep + tail;
    assert w + sep + tail == w + rest;
    assert rest[0] == sep[0];
    SplitToken(w, rest);
    SplitSkipsSpace(sep, tail);
  }

  lemma SplitEmpty()
    ensures Split("") == []
  {
    assert DropSpace("") == "";
  }

  lemma SplitSingle(w: string)
    requires IsToken(w)
    ensures Split(w) == [w]
  {
    var empty: string := [];
    SplitToken(w, empty);
    assert w + empty == w;
    SplitEmpty();
  }

  /** Splitting the tokens joined by a whitespace separator gives the tokens back. */
  lemma {:induction false} SplitJoin(ws: seq<string>, sep: string)
    requires forall i :: 0 <= i < |ws| ==> IsToken(ws[i])
    requires |sep| > 0 && forall k :: 0 <= k < |sep| ==> IsSpace(sep[k])
    ensures Split(Join(ws, sep)) == ws
    decreases |ws|, 1
  {
    if ws == [] {
      SplitEmpty();
    } else if |ws| == 1 {
      JoinOne(ws, sep);
      SplitSingle(ws[0]);
    } else {
      SplitJoinCons(ws, sep);
    }
  }

  /** Text made of tokens joined by a whitespace separator splits into those tokens. */
  lemma SplitOfJoin(text: string, ws: seq<string>, sep: string)
    requires text == Join(ws, sep)
    requires forall i :: 0 <= i < |ws| ==> IsToken(ws[i])
    requires |sep| > 0 && forall k :: 0 <= k < |sep| ==> IsSpace(sep[k])
    ensures Split(text) == ws
  {
    SplitJoin(ws, sep);
  }

  lemma {:induction false} SplitJoinCons(ws: seq<string>, sep: string)
    requires |ws| > 1 && forall i :: 0 <= i < |ws| ==> IsToken(ws[i])
    requires |sep| > 0 && forall k :: 0 <= k < |sep| ==> IsSpace(sep[k])
    ensures Split(Join(ws, sep)) == ws
    decreases |ws|, 0
  {
    TailTokens(ws);
    SplitJoin(ws[1..], sep);
    SplitJoinHead(ws, sep);
    ConsTail(ws);
  }

  lemma TailTokens(ws: seq<string>)
    requires |ws| > 0 && forall i :: 0 <= i < |ws| ==> IsToken(ws[i])
    ensures forall i :: 0 <= i < |ws[1..]| ==> IsToken(ws[1..][i])
  {
    forall i | 0 <= i < |ws[1..]| ensures IsToken(ws[1..][i]) {
      assert ws[1..][i] == ws[i + 1];
    }
  }

  lemma ConsTail<T>(s: seq<T>)
    requires |s| > 0
    ensures [s[0]] + s[1..] == s
  {
  }

  lemma SplitJoinHead(ws: seq<string>, sep: string)
    requires |ws| > 1 && IsToken(ws[0])
    requires |sep| > 0 && forall k :: 0 <= k < |sep| ==> IsSpace(sep[k])
    ensures Split(Join(ws, sep)) == [ws[0]] + Split(Join(ws[1..], sep))
  {
    JoinCons(ws, sep);
    SplitTokenSep(ws[0], sep, Join(ws[1..], sep));
  }

  lemma {:induction false} RemoveSpaceAppend(a: string, b: string)
    ensures RemoveSpace(a + b) == RemoveSpace(a) + RemoveSpace(b)
  {
    if a != [] {
      assert (a + b)[0] == a[0] && (a + b)[1..] == a[1..] + b;
      RemoveSpaceAppend(a[1..], b);
    } else {
      assert a + b == b;
    }
  }

  lemma {:induction false} RemoveSpaceOfSpace(s: string)
    requires forall k :: 0 <= k < |s| ==> IsSpace(s[k])
    ensures RemoveSpace(s) == ""
  {
    if s != [] {
      RemoveSpaceOfSpace(s[1..]);
    }
  }

  lemma {:induction false} RemoveSpaceOfWord(s: string)
    requires forall k :: 0 <= k < |s| ==> !IsSpace(s[k])
    ensures RemoveSpace(s) == s
  {
    if s != [] {
      RemoveSpaceOfWord(s[1..]);
      assert s == [s[0]] + s[1..];
    }
  }

  /** One step of `Split`: the leading whitespace, then the first word, then the rest. */
  lemma SplitStep(s: string)
    requires DropSpace(s) != []
    ensures var t := DropSpace(s); var n := WordLength(t);
      Split(s) == [t[..n]] + Split(t[n..])
  {
  }

  /** The tokens of `s.split()` hold every non-whitespace character of `s`, in order, and nothing else. */
  lemma {:induction false} SplitKeepsText(s: string)
    ensures Concat(Split(s)) == RemoveSpace(s)
    decreases |s|
  {
    var t := DropSpace(s);
    RemoveLeadingSpace(s);
    if t != [] {
      var n := WordLength(t);
      RemoveSpaceOfSplitWord(t, n);
      SplitStep(s);
      SplitKeepsText(t[n..]);
      ConcatCons(t[..n], Split(t[n..]));
    } else {
      SplitEmptyText(s);
    }
  }

  /** Leading whitespace contributes no characters. */
  lemma RemoveLeadingSpace(s: string)
    ensures RemoveSpace(s) == RemoveSpace(DropSpace(s))
  {
    var t := DropSpace(s);
    var lead := s[..|s| - |t|];
    assert s == lead + t;
    RemoveSpaceAppend(lead, t);
    RemoveSpaceOfSpace(lead);
  }

  /** A whitespace-free prefix contributes itself. */
  lemma RemoveSpaceOfSplitWord(t: string, n: nat)
    requires n <= |t| && forall k :: 0 <= k < n ==> !IsSpace(t[k])
    ensures RemoveSpace(t) == t[..n] + RemoveSpace(t[n..])
  {
    assert t == t[..n] + t[n..];
    RemoveSpaceAppend(t[..n], t[n..]);
    RemoveSpaceOfWord(t[..n]);
  }

  lemma ConcatCons(w: string, ws: seq<string>)
    ensures Concat([w] + ws) == w + Concat(ws)
  {
    assert ([w] + ws)[1..] == ws;
  }

  lemma SplitEmptyText(s: string)
    requires DropSpace(s) == []
    ensures Split(s) == [] && RemoveSpace(DropSpace(s)) == ""
  {
  }

  // ---------------------------------------------------------------------------
  // repr(str)
  // ---------------------------------------------------------------------------

  const HexDigits: string := "0123456789abcdef"

  /** The quote `repr` puts around `s`: a double quote only when `s` has a single quote and no double quote. */
  function QuoteFor(s: string): (q: char)
    ensures q == '\'' || q == '"'
    ensures q == '"' <==> ('\'' in s && '"' !in s)
    ensures q !in s || ('\'' in s && '"' in s)
  {
    if '\'' in s && '"' !in s then '"' else '\''
  }

  /** Characters `repr` writes as a two-digit hexadecimal escape. */
  predicate NeedsHexEscape(c: char) {
    (c < ' ' && c != '\t' && c != '\n' && c != '\r') || c == '\U{7F}'
  }

  /** How `repr` writes one character inside a literal quoted with `q`. */
  function EscapeChar(c: char, q: char): (r: string)
    ensures |r| > 0
  {
    if c == q || c == '\\' then ['\\', c]
    else if c == '\t' then "\\t"
    else if c == '\n' then "\\n"
    else if c == '\r' then "\\r"
    else if NeedsHexEscape(c) then ['\\', 'x', HexDigits[c as int / 16], HexDigits[c as int % 16]]
    else [c]
  }

  function Escape(s: string, q: char): string {
    if s == [] then "" else EscapeChar(s[0], q) + Escape(s[1..], q)
  }

  /** `repr(s)` for a `str`: the escaped text between two equal quote characters. */
  function Repr(s: string): string {
    var q := QuoteFor(s);
    [q] + Escape(s, q) + [q]
  }

  /** A string `repr` leaves unchanged inside its quotes: no quote, backslash or control character. */
  predicate IsPlain(s: string) {
    forall k :: 0 <= k < |s| ==> s[k] != '\'' && s[k] != '"' && s[k] != '\\' && ' ' <= s[k] && s[k] != '\U{7F}'
  }

  /** For plain text, `repr` only wraps it in single quotes. */
  lemma {:induction false} ReprOfPlain(s: string)
    requires IsPlain(s)
    ensures Repr(s) == "'" + s + "'"
  {
    assert QuoteFor(s) == '\'' by {
      assert '\'' !in s by {
        forall k | 0 <= k < |s| ensures s[k] != '\'' { }
      }
    }
    EscapeOfPlain(s);
  }

  /** Two plain values inside a template print as the template with each value in single quotes. */
  lemma ReprOfPlainPair(pre: string, a: string, mid: string, b: string, post: string)
    requires IsPlain(a) && IsPlain(b)
    ensures pre + Repr(a) + mid + Repr(b) + post == (pre + "'") + a + ("'" + mid + "'") + b + ("'" + post)
  {
    ReprOfPlain(a);
    ReprOfPlain(b);
  }

  lemma {:induction false} EscapeOfPlain(s: string)
    requires IsPlain(s)
    ensures Escape(s, '\'') == s
  {
    if s != [] {
      assert IsPlain(s[1..]) by {
        forall k | 0 <= k < |s[1..]| ensures s[1..][k] == s[k + 1] { }
      }
      EscapeOfPlain(s[1..]);
      assert s == [s[0]] + s[1..];
    }
  }

  // ---------------------------------------------------------------------------
  // Reading back what repr wrote
  // ---------------------------------------------------------------------------

  function HexValue(c: char): Option<nat> {
    if '0' <= c <= '9' then Some(c as int - '0' as int)
    else if 'a' <= c <= 'f' then Some(c as int - 'a' as int + 10)
    else None
  }

  lemma HexValueOfDigit(d: nat)
    requires d < 16
    ensures HexValue(HexDigits[d]) == Some(d)
  {
  }

  /** The character an escape `\` `e` stands for, for the one-letter escapes. */
  function Unescape(e: char, q: char): Option<char> {
    if e == q || e == '\\' then Some(e)
    else if e == 't' then Some('\t')
    else if e == 'n' then Some('\n')
    else if e == 'r' then Some('\r')
    else None
  }

  /**
   * Reads the body of a literal quoted with `q` up to its closing quote;
   * gives the decoded text and whatever follows the closing quote.
   */
  function ParseBody(s: string, q: char): (r: Option<(string, string)>)
    ensures r.Some? ==> |r.value.1| < |s|
    decreases |s|
  {
    if s == [] then None
    else if s[0] == q then Some(("", s[1..]))
    else if s[0] != '\\' then
      match ParseBody(s[1..], q)
      case None => None
      case Some((body, rest)) => Some(([s[0]] + body, rest))
    else if |s| < 2 then None
    else if s[1] == 'x' then
      if |s| < 4 then None
      else match (HexValue(s[2]), HexValue(s[3]))
        case (Some(hi), Some(lo)) =>
          (match ParseBody(s[4..], q)
           case None => None
           case Some((body, rest)) => Some(([(hi * 16 + lo) as char] + body, rest)))
        case _ => None
    else match Unescape(s[1], q)
      case None => None
      case Some(c) =>
        match ParseBody(s[2..], q)
        case None => None
        case Some((body, rest)) => Some(([c] + body, rest))
  }

  /** Reads one quoted literal at the start of `s`; gives its text and what follows it. */
  function ParseLiteral(s: string): (r: Option<(string, string)>)
    ensures r.Some? ==> |r.value.1| < |s|
  {
    if s != [] && (s[0] == '\'' || s[0] == '"') then ParseBody(s[1..], s[0]) else None
  }

  lemma {:induction false} ParseEscapeChar(c: char, q: char, tail: string)
    requires q == '\'' || q == '"'
    ensures ParseBody(EscapeChar(c, q) + tail, q) ==
      match ParseBody(tail, q)
      case None => None
      case Some((body, rest)) => Some(([c] + body, rest))
  {
    var e := EscapeChar(c, q);
    var s := e + tail;
    if c == q || c == '\\' || c == '\t' || c == '\n' || c == '\r' {
      assert s[0] == '\\' && s[1] == e[1] && s[2..] == tail;
    } else if NeedsHexEscape(c) {
      var n := c as int;
      HexValueOfDigit(n / 16);
      HexValueOfDigit(n % 16);
      assert s[0] == '\\' && s[1] == 'x' && s[2] == HexDigits[n / 16] && s[3] == HexDigits[n % 16];
      assert s[4..] == tail;
      assert (n / 16 * 16 + n % 16) as char == c;
    } else {
      assert s[0] == c && s[1..] == tail;
    }
  }

  lemma {:induction false} ParseEscape(t: string, q: char, rest: string)
    requires q == '\'' || q == '"'
    ensures ParseBody(Escape(t, q) + [q] + rest, q) == Some((t, rest))
  {
    if t == [] {
      assert Escape(t, q) + [q] + rest == [q] + rest;
    } else {
      var tail := Escape(t[1..], q) + [q] + rest;
      assert Escape(t, q) + [q] + rest == EscapeChar(t[0], q) + tail;
      ParseEscapeChar(t[0], q, tail);
      ParseEscape(t[1..], q, rest);
      assert [t[0]] + t[1..] == t;
    }
  }

  /** The literal `repr` writes reads back as the original text, whatever follows it. */
  lemma {:induction false} ParseRepr(s: string, rest: string)
    ensures ParseLiteral(Repr(s) + rest) == Some((s, rest))
  {
    var q := QuoteFor(s);
    assert Repr(s) + rest == [q] + (Escape(s, q) + [q] + rest);
    ParseEscape(s, q, rest);
  }

  /** Different strings have different `repr`s. */
  lemma ReprInjective(s: string, t: string)
    ensures Repr(s) == Repr(t) <==> s == t
  {
    if Repr(s) == Repr(t) {
      ParseRepr(s, "");
      ParseRepr(t, "");
      assert Repr(s) + "" == Repr(s) && Repr(t) + "" == Repr(t);
    }
  }
}
