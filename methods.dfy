/** The normalisation of the request method at the start of `make_request`. */
module Methods {
  import opened Results

  /** The six verbs `make_request` can build a request for. */
  datatype HttpMethod = Get | Post | Put | Delete | Patch | Head {
    /** The verb's upper-case spelling, as matched by `make_request`. */
    function Name(): (n: string)
      ensures |n| >= 3 && forall i :: 0 <= i < |n| ==> 'A' <= n[i] <= 'Z'
    {
      match this
      case Get => "GET"
      case Post => "POST"
      case Put => "PUT"
      case Delete => "DELETE"
      case Patch => "PATCH"
      case Head => "HEAD"
    }
  }

  const UnsupportedPrefix: string := "Unsupported HTTP method: "

  /** No character of `s` is an ASCII lower-case letter. */
  predicate NoAsciiLower(s: string) {
    forall i :: 0 <= i < |s| ==> !('a' <= s[i] <= 'z')
  }

  /** The upper-case mapping of one character, as `str::to_uppercase`
      performs it for ASCII letters and for the non-ASCII letters whose
      upper-case form is made of ASCII letters only. Any other character is
      kept unchanged. */
  function UpperChar(c: char): (u: string)
    ensures |u| >= 1 && NoAsciiLower(u)
    ensures 'a' <= c <= 'z' ==> u == [(c as int - 32) as char]
    ensures c as int < 128 ==> |u| == 1
    ensures c as int < 128 && !('a' <= c <= 'z') ==> u == [c]
  {
    if 'a' <= c <= 'z' then [(c as int - 32) as char]
    else if c == '\U{00DF}' then "SS"   // sharp s
    else if c == '\U{0131}' then "I"    // dotless i
    else if c == '\U{017F}' then "S"    // long s
    else if c == '\U{FB00}' then "FF"
    else if c == '\U{FB01}' then "FI"
    else if c == '\U{FB02}' then "FL"
    else if c == '\U{FB03}' then "FFI"
    else if c == '\U{FB04}' then "FFL"
    else if c == '\U{FB05}' || c == '\U{FB06}' then "ST"
    else [c]
  }

  /** `str::to_uppercase`, character by character. */
  function ToUpper(s: string): (r: string)
    ensures |r| >= |s|
  {
    if s == [] then [] else UpperChar(s[0]) + ToUpper(s[1..])
  }

  /** The ASCII lower-case spelling of a string, for stating that lower-case
      verbs are accepted. */
  function AsciiLower(s: string): (r: string)
    ensures |r| == |s|
  {
    if s == [] then []
    else [if 'A' <= s[0] <= 'Z' then (s[0] as int + 32) as char else s[0]] + AsciiLower(s[1..])
  }

  /** The method `make_request` dispatches on: an empty one stands for `GET`,
      and the result is upper-cased. */
  function EffectiveMethod(verb: string): (m: string)
    ensures m != [] && |m| >= |verb|
    ensures verb == [] ==> m == "GET"
    ensures NoAsciiLower(m) && ToUpper(m) == m
  {
    var named := if verb == [] then "GET" else verb;
    ToUpperOfAsciiLower("GET");
    ToUpperHasNoAsciiLower(named);
    ToUpperIdempotent(named);
    ToUpper(named)
  }

  /** The match on the upper-cased method: one of the six verbs, or the
      "Unsupported HTTP method" error naming the upper-cased method. */
  function NormalizeMethod(verb: string): (r: Result<HttpMethod>)
    ensures verb == [] ==> r == Ok(Get)
    ensures r.Ok? ==> r.value.Name() == EffectiveMethod(verb)
    ensures r.Err? ==>
      r.error == UnsupportedPrefix + EffectiveMethod(verb) &&
      forall m: HttpMethod :: m.Name() != EffectiveMethod(verb)
  {
    var upper := EffectiveMethod(verb);
    if upper == "GET" then Ok(Get)
    else if upper == "POST" then Ok(Post)
    else if upper == "PUT" then Ok(Put)
    else if upper == "DELETE" then Ok(Delete)
    else if upper == "PATCH" then Ok(Patch)
    else if upper == "HEAD" then Ok(Head)
    else Err(UnsupportedPrefix + upper)
  }

  lemma {:induction false} ToUpperAppend(a: string, b: string)
    ensures ToUpper(a + b) == ToUpper(a) + ToUpper(b)
  {
    if a == [] {
      assert a + b == b;
    } else {
      assert (a + b)[1..] == a[1..] + b;
      ToUpperAppend(a[1..], b);
    }
  }

  /** Upper-casing leaves no ASCII lower-case letter behind. */
  lemma {:induction false} ToUpperHasNoAsciiLower(s: string)
    ensures NoAsciiLower(ToUpper(s))
  {
    if s != [] {
      ToUpperHasNoAsciiLower(s[1..]);
      var u, rest := UpperChar(s[0]), ToUpper(s[1..]);
      assert ToUpper(s) == u + rest;
      forall i | 0 <= i < |u + rest|
        ensures !('a' <= (u + rest)[i] <= 'z')
      {
        if i >= |u| { assert (u + rest)[i] == rest[i - |u|]; }
      }
    }
  }

  /** Every character `UpperChar` produces is its own upper case. */
  lemma UpperCharFixed(c: char)
    ensures ToUpper(UpperChar(c)) == UpperChar(c)
  {
    var u := UpperChar(c);
    if |u| == 2 {
      assert u == [u[0]] + [u[1]];
      ToUpperAppend([u[0]], [u[1]]);
    } else if |u| == 3 {
      assert u == [u[0]] + [u[1]] + [u[2]];
      ToUpperAppend([u[0]] + [u[1]], [u[2]]);
      ToUpperAppend([u[0]], [u[1]]);
    }
  }

  /** Upper-casing twice is upper-casing once. */
  lemma {:induction false} ToUpperIdempotent(s: string)
    ensures ToUpper(ToUpper(s)) == ToUpper(s)
  {
    if s != [] {
      ToUpperAppend(UpperChar(s[0]), ToUpper(s[1..]));
      UpperCharFixed(s[0]);
      ToUpperIdempotent(s[1..]);
    }
  }

  /** Upper-casing the ASCII lower-case spelling of an upper-case ASCII word
      gives the word back. */
  lemma {:induction false} ToUpperOfAsciiLower(s: string)
    requires forall i :: 0 <= i < |s| ==> 'A' <= s[i] <= 'Z'
    ensures ToUpper(AsciiLower(s)) == s
    ensures ToUpper(s) == s
  {
    if s != [] {
      ToUpperOfAsciiLower(s[1..]);
      var lower := AsciiLower(s);
      var c := (s[0] as int + 32) as char;
      assert lower == [c] + AsciiLower(s[1..]);
      assert lower[1..] == AsciiLower(s[1..]);
      assert UpperChar(c) == [s[0]];
      assert UpperChar(s[0]) == [s[0]];
      assert s == [s[0]] + s[1..];
    }
  }

  /** Normalisation ignores case: a method and its upper-cased spelling are
      treated alike, so normalising is idempotent. */
  lemma NormalizeIgnoresCase(verb: string)
    ensures NormalizeMethod(ToUpper(verb)) == NormalizeMethod(verb)
  {
    if verb != [] {
      ToUpperIdempotent(verb);
      assert EffectiveMethod(ToUpper(verb)) == EffectiveMethod(verb);
    }
  }

  /** Each verb is accepted in its upper-case and its lower-case spelling. */
  lemma NormalizeAcceptsVerb(m: HttpMethod)
    ensures NormalizeMethod(m.Name()) == Ok(m)
    ensures NormalizeMethod(AsciiLower(m.Name())) == Ok(m)
  {
    ToUpperOfAsciiLower(m.Name());
  }

  /** Because the upper-casing is Unicode-aware, "po" + long s + "t" is
      accepted as `POST`. */
  lemma NormalizeLongS()
    ensures NormalizeMethod("po\U{017F}t") == Ok(Post)
  {
    assert ToUpper("t") == "T";
    assert ToUpper("\U{017F}t") == "ST";
    assert ToUpper("o\U{017F}t") == "OST";
    assert ToUpper("po\U{017F}t") == "POST";
  }

  /** An unknown verb, written in any mix of ASCII case, is rejected with
      its upper-cased spelling. */
  lemma NormalizeRejectsUnknown(word: string)
    requires word != [] && forall i :: 0 <= i < |word| ==> 'A' <= word[i] <= 'Z'
    requires forall m: HttpMethod :: m.Name() != word
    ensures NormalizeMethod(word) == Err(UnsupportedPrefix + word)
    ensures NormalizeMethod(AsciiLower(word)) == Err(UnsupportedPrefix + word)
  {
    ToUpperOfAsciiLower(word);
    var lower := AsciiLower(word);
    assert EffectiveMethod(word) == word && EffectiveMethod(lower) == word;
    var r, q := NormalizeMethod(word), NormalizeMethod(lower);
    assert !r.Ok? && !q.Ok?;
  }
}
