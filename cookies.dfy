/** The simple `Set-Cookie` splitting done by `make_request`: the first
    `set-cookie` value is cut at every `;`, each piece is trimmed and cut at
    its first `=`, and the pairs are inserted into a map in order. Attributes
    such as `Path=/` land in the map as if they were cookies. */
module Cookies {
  import opened Results

  newtype byte = b: int | 0 <= b < 256

  /** The characters with the Unicode White_Space property, which
      `str::trim` strips. */
  predicate IsWhitespace(c: char) {
    ('\t' <= c <= '\r') || c == ' ' || c == '\U{0085}' || c == '\U{00A0}' ||
    c == '\U{1680}' || ('\U{2000}' <= c <= '\U{200A}') || c == '\U{2028}' ||
    c == '\U{2029}' || c == '\U{202F}' || c == '\U{205F}' || c == '\U{3000}'
  }

  predicate AllWhitespace(s: string) {
    forall i :: 0 <= i < |s| ==> IsWhitespace(s[i])
  }

  /** `str::trim_start`: the longest suffix not starting with whitespace. */
  function TrimStart(s: string): (r: string)
    ensures |r| <= |s| && r == s[|s| - |r|..]
    ensures AllWhitespace(s[..|s| - |r|])
    ensures r == [] || !IsWhitespace(r[0])
  {
    if s != [] && IsWhitespace(s[0]) then
      var r := TrimStart(s[1..]);
      assert s[..|s| - |r|] == [s[0]] + s[1..][..|s| - 1 - |r|];
      r
    else s
  }

  /** `str::trim_end`: the longest prefix not ending with whitespace. */
  function TrimEnd(s: string): (r: string)
    ensures |r| <= |s| && r == s[..|r|]
    ensures AllWhitespace(s[|r|..])
    ensures r == [] || !IsWhitespace(r[|r| - 1])
  {
    if s != [] && IsWhitespace(s[|s| - 1]) then
      var r := TrimEnd(s[..|s| - 1]);
      assert s[|r|..] == s[..|s| - 1][|r|..] + [s[|s| - 1]];
      r
    else s
  }

  /** `str::trim`: the slice left after whitespace is stripped from both ends. */
  function Trim(s: string): (r: string)
    ensures |r| <= |s|
    ensures r == [] || (!IsWhitespace(r[0]) && !IsWhitespace(r[|r| - 1]))
  {
    TrimEnd(TrimStart(s))
  }

  /** What `Trim` removes is whitespace only, from the two ends: the result
      is the slice of `s` between a whitespace prefix and a whitespace suffix. */
  lemma TrimIsSlice(s: string)
    ensures var lead, r := |s| - |TrimStart(s)|, Trim(s);
      lead + |r| <= |s| && r == s[lead..lead + |r|] &&
      AllWhitespace(s[..lead]) && AllWhitespace(s[lead + |r|..])
  {
    var t := TrimStart(s);
    var r := TrimEnd(t);
    var lead := |s| - |t|;
    assert t[|r|..] == s[lead + |r|..];
  }

  /** `str::split_once`: the text before the first `c` and the text after
      it, or nothing when `c` does not occur. */
  function SplitOnce(s: string, c: char): (r: Option<(string, string)>)
    ensures r.None? <==> c !in s
    ensures r.Some? ==> c !in r.value.0 && r.value.0 + [c] + r.value.1 == s
  {
    if s == [] then None
    else if s[0] == c then Some(([], s[1..]))
    else
      match SplitOnce(s[1..], c)
      case None => None
      case Some((before, after)) => Some(([s[0]] + before, after))
  }

  /** Joining pieces with a separator, the inverse of `Split`. */
  function Join(parts: seq<string>, sep: char): string {
    if parts == [] then []
    else if |parts| == 1 then parts[0]
    else parts[0] + [sep] + Join(parts[1..], sep)
  }

  /** `str::split` with a character pattern: the pieces between separators,
      empty ones included; there is one more piece than separators. */
  function Split(s: string, sep: char): (parts: seq<string>)
    ensures |parts| >= 1
    ensures forall i :: 0 <= i < |parts| ==> sep !in parts[i]
    decreases |s|
  {
    match SplitOnce(s, sep)
    case None => [s]
    case Some((head, rest)) => [head] + Split(rest, sep)
  }

  /** The (name, value) pair one `;`-separated piece contributes, if any. */
  function PiecePair(piece: string): (r: Option<(string, string)>)
    ensures r.None? <==> '=' !in Trim(piece)
    ensures r.Some? ==> '=' !in r.value.0 && r.value.0 + "=" + r.value.1 == Trim(piece)
  {
    SplitOnce(Trim(piece), '=')
  }

  /** The parsed pairs of the pieces, in order. */
  function Pairs(pieces: seq<string>): (ps: seq<Option<(string, string)>>)
    ensures |ps| == |pieces|
  {
    seq(|pieces|, i requires 0 <= i < |pieces| => PiecePair(pieces[i]))
  }

  /** The map built by inserting the present pairs in order, each insertion
      overwriting an earlier value for the same name. */
  function InsertAll(pairs: seq<Option<(string, string)>>): (m: map<string, string>)
    ensures |m.Keys| <= |pairs|
    ensures pairs != [] && pairs[|pairs| - 1].Some? ==>
      var (name, value) := pairs[|pairs| - 1].value; name in m && m[name] == value
  {
    if pairs == [] then map[]
    else
      var m := InsertAll(pairs[..|pairs| - 1]);
      match pairs[|pairs| - 1]
      case None => m
      case Some((name, value)) => m[name := value]
  }

  /** One more step of the insertion. */
  lemma InsertAllStep(pairs: seq<Option<(string, string)>>, i: nat)
    requires i < |pairs|
    ensures InsertAll(pairs[..i + 1]) ==
      match pairs[i]
      case None => InsertAll(pairs[..i])
      case Some((name, value)) => InsertAll(pairs[..i])[name := value]
  {
    assert pairs[..i + 1][..i] == pairs[..i];
  }

  /** The cookies the splitting loop collects from a sequence of pieces. */
  function CookieMap(pieces: seq<string>): (m: map<string, string>)
    ensures |m.Keys| <= |pieces|
  {
    InsertAll(Pairs(pieces))
  }

  /** The cookie-splitting loop of `make_request` over one header value:
      split at every `;`, then collect the pairs. */
  method ParseCookies(cookieStr: string) returns (cookies: map<string, string>)
    ensures cookies == CookieMap(Split(cookieStr, ';'))
  {
    var pieces := Split(cookieStr, ';');
    cookies := CollectCookies(pieces);
  }

  /** The body of the loop: trim each piece, cut it at its first `=` and
      insert the pair, skipping pieces without `=`. */
  method CollectCookies(pieces: seq<string>) returns (cookies: map<string, string>)
    ensures cookies == CookieMap(pieces)
  {
    ghost var pairs := Pairs(pieces);
    cookies := map[];
    var i := 0;
    while i < |pieces|
      invariant 0 <= i <= |pieces|
      invariant cookies == InsertAll(pairs[..i])
    {
      InsertAllStep(pairs, i);
      assert pairs[i] == SplitOnce(Trim(pieces[i]), '=');
      match SplitOnce(Trim(pieces[i]), '=') {
        case Some((name, value)) =>
          cookies := cookies[name := value];
        case None =>
      }
      i := i + 1;
    }
    assert pairs[..|pieces|] == pairs;
  }

  /** `HeaderValue::to_str`: the value as text when every byte is a tab or
      visible ASCII, nothing otherwise. */
  function HeaderValueToStr(value: seq<byte>): (r: Option<string>)
    ensures r.Some? <==> forall i :: 0 <= i < |value| ==> value[i] == 9 || 32 <= value[i] < 127
    ensures r.Some? ==>
      |r.value| == |value| && forall i :: 0 <= i < |value| ==> r.value[i] as int == value[i] as int
  {
    if value == [] then Some([])
    else if !(value[0] == 9 || 32 <= value[0] < 127) then None
    else
      match HeaderValueToStr(value[1..])
      case None => None
      case Some(rest) => Some([value[0] as int as char] + rest)
  }

  /** The cookie extraction of `make_request`, given the response's
      `set-cookie` values in order: only the first value is read, and a value
      that is not visible ASCII yields no cookies. */
  method CookiesFromSetCookie(setCookie: seq<seq<byte>>) returns (cookies: map<string, string>)
    ensures setCookie == [] ==> cookies == map[]
    ensures setCookie != [] && HeaderValueToStr(setCookie[0]).None? ==> cookies == map[]
    ensures setCookie != [] && HeaderValueToStr(setCookie[0]).Some? ==>
      cookies == CookieMap(Split(HeaderValueToStr(setCookie[0]).value, ';'))
  {
    cookies := map[];
    if setCookie != [] {
      match HeaderValueToStr(setCookie[0]) {
        case Some(cookieStr) =>
          cookies := ParseCookies(cookieStr);
        case None =>
      }
    }
  }

  /** A text cut at a first occurrence of `c` can be cut there only. */
  lemma FirstSeparatorUnique(x: string, y: string, before: string, after: string, c: char)
    requires c !in x && c !in before && x + [c] + y == before + [c] + after
    ensures x == before && y == after
  {
    var s := before + [c] + after;
    assert s[|before|] == c && s[|x|] == c;
    assert forall i :: 0 <= i < |before| ==> s[i] == before[i];
    assert forall i :: 0 <= i < |x| ==> s[i] == x[i];
    assert |x| == |before|;
    assert x == s[..|x|] && before == s[..|before|];
    assert y == s[|x| + 1..] && after == s[|before| + 1..];
  }

  /** `split_once` cuts at the first occurrence: whatever follows it, the
      separator included, stays in the second half. */
  lemma SplitOnceAt(before: string, c: char, after: string)
    requires c !in before
    ensures SplitOnce(before + [c] + after, c) == Some((before, after))
  {
    var s := before + [c] + after;
    assert s[|before|] == c;
    var r := SplitOnce(s, c);
    FirstSeparatorUnique(r.value.0, r.value.1, before, after, c);
  }

  /** Joining the pieces of a split gives the text back. */
  lemma {:induction false} JoinSplit(s: string, sep: char)
    ensures Join(Split(s, sep), sep) == s
    decreases |s|
  {
    match SplitOnce(s, sep)
    case None =>
    case Some((head, rest)) =>
      JoinSplit(rest, sep);
      assert Split(s, sep)[1..] == Split(rest, sep);
  }

  /** Splitting joined pieces gives the pieces back. */
  lemma {:induction false} SplitJoin(parts: seq<string>, sep: char)
    requires |parts| >= 1
    requires forall i :: 0 <= i < |parts| ==> sep !in parts[i]
    ensures Split(Join(parts, sep), sep) == parts
  {
    if |parts| > 1 {
      assert sep !in parts[0];
      SplitOnceAt(parts[0], sep, Join(parts[1..], sep));
      SplitJoin(parts[1..], sep);
      assert parts == [parts[0]] + parts[1..];
    }
  }

  /** Splitting two texts joined by a separator splits each on its own. */
  lemma {:induction false} SplitConcat(a: string, sep: char, b: string)
    ensures Split(a + [sep] + b, sep) == Split(a, sep) + Split(b, sep)
    decreases |a|
  {
    match SplitOnce(a, sep)
    case None =>
      SplitOnceAt(a, sep, b);
    case Some((head, rest)) =>
      assert a + [sep] + b == head + [sep] + (rest + [sep] + b);
      SplitOnceAt(head, sep, rest + [sep] + b);
      SplitConcat(rest, sep, b);
  }

  /** A pair list holds an entry for `name`. */
  predicate DefinesAt(pairs: seq<Option<(string, string)>>, i: int, name: string)
    requires 0 <= i < |pairs|
  {
    pairs[i].Some? && pairs[i].value.0 == name
  }

  /** Inserting in order is a right-biased union of the maps of the two
      halves: later pairs overwrite earlier ones. */
  lemma {:induction false} InsertAllConcat(a: seq<Option<(string, string)>>, b: seq<Option<(string, string)>>)
    ensures InsertAll(a + b) == InsertAll(a) + InsertAll(b)
    decreases |b|
  {
    if b == [] {
      assert a + b == a;
    } else {
      var b' := b[..|b| - 1];
      assert (a + b)[..|a + b| - 1] == a + b';
      assert (a + b)[|a + b| - 1] == b[|b| - 1];
      InsertAllConcat(a, b');
    }
  }

  /** One insertion adds the name of the last pair, if any. */
  lemma InsertAllKeyStep(pairs: seq<Option<(string, string)>>, name: string)
    requires pairs != []
    ensures name in InsertAll(pairs) <==>
      name in InsertAll(pairs[..|pairs| - 1]) || DefinesAt(pairs, |pairs| - 1, name)
  {
  }

  /** A name is in the map exactly when some pair names it. */
  lemma {:induction false} InsertAllDomain(pairs: seq<Option<(string, string)>>, name: string)
    ensures name in InsertAll(pairs) <==>
      exists i :: 0 <= i < |pairs| && DefinesAt(pairs, i, name)
  {
    if pairs != [] {
      var n := |pairs| - 1;
      var init := pairs[..n];
      InsertAllDomain(init, name);
      InsertAllKeyStep(pairs, name);
      if name in InsertAll(pairs) {
        if !DefinesAt(pairs, n, name) {
          var i :| 0 <= i < |init| && DefinesAt(init, i, name);
          assert init[i] == pairs[i];
          assert DefinesAt(pairs, i, name);
        }
      } else {
        forall i | 0 <= i < |pairs| ensures !DefinesAt(pairs, i, name) {
          if i < n {
            assert init[i] == pairs[i];
            assert !DefinesAt(init, i, name);
          }
        }
      }
    }
  }

  /** The value stored for a name is the one of the last pair naming it. */
  lemma LastDefinitionWins(pairs: seq<Option<(string, string)>>, i: nat, name: string, value: string)
    requires i < |pairs| && pairs[i] == Some((name, value))
    requires forall j :: i < j < |pairs| ==> !DefinesAt(pairs, j, name)
    ensures name in InsertAll(pairs) && InsertAll(pairs)[name] == value
  {
    var front, back := pairs[..i + 1], pairs[i + 1..];
    assert pairs == front + back;
    InsertAllConcat(front, back);
    InsertAllDomain(back, name);
    if exists k :: 0 <= k < |back| && DefinesAt(back, k, name) {
      var k :| 0 <= k < |back| && DefinesAt(back, k, name);
      assert back[k] == pairs[i + 1 + k];
      assert DefinesAt(pairs, i + 1 + k, name);
    }
    assert front[..|front| - 1] == pairs[..i];
  }

  /** The same at the level of pieces: a name is stored exactly when some
      piece defines it, with the value of the last such piece. */
  lemma CookieMapOfPieces(pieces: seq<string>, i: nat, name: string, value: string)
    requires i < |pieces| && PiecePair(pieces[i]) == Some((name, value))
    requires forall j :: i < j < |pieces| ==> PiecePair(pieces[j]).None? || PiecePair(pieces[j]).value.0 != name
    ensures name in CookieMap(pieces) && CookieMap(pieces)[name] == value
  {
    var pairs := Pairs(pieces);
    forall j | i < j < |pairs| ensures !DefinesAt(pairs, j, name) {
      assert pairs[j] == PiecePair(pieces[j]);
    }
    LastDefinitionWins(pairs, i, name, value);
  }

  /** The parsed pairs of two runs of pieces are those of each run. */
  lemma PairsConcat(a: seq<string>, b: seq<string>)
    ensures Pairs(a + b) == Pairs(a) + Pairs(b)
  {
    var l, r := Pairs(a + b), Pairs(a) + Pairs(b);
    forall i | 0 <= i < |l| ensures l[i] == r[i] {
      if i < |a| {
        assert (a + b)[i] == a[i];
      } else {
        assert (a + b)[i] == b[i - |a|];
      }
    }
  }

  /** A piece without `=` contributes nothing. */
  lemma PieceWithoutEqualsSkipped(a: seq<string>, piece: string, b: seq<string>)
    requires '=' !in Trim(piece)
    ensures CookieMap(a + [piece] + b) == CookieMap(a + b)
  {
    PairsConcat(a + [piece], b);
    PairsConcat(a, [piece]);
    PairsConcat(a, b);
    var pa, pb := Pairs(a), Pairs(b);
    var skipped: seq<Option<(string, string)>> := [None];
    assert Pairs([piece]) == skipped;
    InsertAllConcat(pa + skipped, pb);
    InsertAllConcat(pa, skipped);
    InsertAllConcat(pa, pb);
    assert skipped[..0] == [];
  }

  /** At header level: the cookies of `a;b` are those of `a`, overwritten
      by those of `b`. */
  lemma CookieHeaderConcat(a: string, b: string)
    ensures CookieMap(Split(a + ";" + b, ';')) ==
      CookieMap(Split(a, ';')) + CookieMap(Split(b, ';'))
  {
    SplitConcat(a, ';', b);
    PairsConcat(Split(a, ';'), Split(b, ';'));
    InsertAllConcat(Pairs(Split(a, ';')), Pairs(Split(b, ';')));
  }

  /** The pieces of a text without separators: just the text. */
  lemma SplitNoSeparator(s: string, sep: char)
    requires sep !in s
    ensures Split(s, sep) == [s]
  {
  }

  /** Leading whitespace does not survive trimming. */
  lemma TrimLeadingWhitespace(c: char, s: string)
    requires IsWhitespace(c)
    ensures Trim([c] + s) == Trim(s)
  {
    assert ([c] + s)[1..] == s;
  }

  /** A text without whitespace at either end is its own trim. */
  lemma TrimUnchanged(s: string)
    requires s != [] && !IsWhitespace(s[0]) && !IsWhitespace(s[|s| - 1])
    ensures Trim(s) == s
  {
  }

  /** The cookies of a header without `;` are those of its one piece. */
  lemma CookieMapOfPiece(piece: string)
    requires ';' !in piece
    ensures CookieMap(Split(piece, ';')) ==
      match PiecePair(piece)
      case None => map[]
      case Some((name, value)) => map[name := value]
  {
    SplitNoSeparator(piece, ';');
    var pair := PiecePair(piece);
    assert Pairs([piece]) == [pair];
    InsertAllSingle(pair);
  }

  lemma InsertAllSingle(pair: Option<(string, string)>)
    ensures InsertAll([pair]) ==
      match pair
      case None => map[]
      case Some((name, value)) => map[name := value]
  {
    assert [pair][..0] == [];
  }

  /** A single `name=value` header yields exactly that cookie; the value
      may itself contain `=`, since only the first one separates. */
  lemma SingleCookie(name: string, value: string)
    requires '=' !in name && ';' !in name && ';' !in value
    requires name != [] && !IsWhitespace(name[0])
    requires value != [] && !IsWhitespace(value[|value| - 1])
    ensures CookieMap(Split(name + ['='] + value, ';')) == map[name := value]
  {
    var piece := name + ['='] + value;
    assert piece[0] == name[0] && piece[|piece| - 1] == value[|value| - 1];
    assert ';' !in piece;
    TrimUnchanged(piece);
    SplitOnceAt(name, '=', value);
    assert PiecePair(piece) == Some((name, value));
    CookieMapOfPiece(piece);
  }

  /** Trimming adds no character that was absent. */
  lemma TrimKeepsAbsent(s: string, c: char)
    requires c !in s
    ensures c !in Trim(s)
  {
    TrimIsSlice(s);
    var lead, t := |s| - |TrimStart(s)|, Trim(s);
    forall k | 0 <= k < |t| ensures t[k] != c {
      assert t[k] == s[lead + k];
    }
  }

  /** A piece without `=`, such as the `HttpOnly` flag, yields nothing. */
  lemma BareFlagIgnored(flag: string)
    requires '=' !in flag && ';' !in flag
    ensures CookieMap(Split(flag, ';')) == map[]
  {
    TrimKeepsAbsent(flag, '=');
    assert PiecePair(flag) == None;
    CookieMapOfPiece(flag);
  }

  /** An attribute such as the ` Path=/` of `sid=abc; Path=/`, space
      included, is stored exactly as a cookie of that name would be; with
      `CookieHeaderConcat` it lands in the map beside the real cookie. */
  lemma AttributeStoredAsCookie(attr: string, attrValue: string)
    requires '=' !in attr && ';' !in attr && ';' !in attrValue
    requires attr != [] && !IsWhitespace(attr[0])
    requires attrValue != [] && !IsWhitespace(attrValue[|attrValue| - 1])
    ensures CookieMap(Split([' '] + attr + ['='] + attrValue, ';')) == map[attr := attrValue]
  {
    var q := attr + ['='] + attrValue;
    assert [' '] + attr + ['='] + attrValue == [' '] + q;
    assert ';' !in q && ';' !in [' '] + q;
    TrimLeadingWhitespace(' ', q);
    CookieMapOfPiece([' '] + q);
    CookieMapOfPiece(q);
    SingleCookie(attr, attrValue);
  }
}
