/**
 * The frontend's string utilities: the query-string builder and the HTML
 * escaper. URI component encoding is a parameter (`encode`), standing for
 * the browser's `encodeURIComponent`.
 */
module JsUtils {
  import opened Text

  // ---------------------------------------------------------------------------
  // Query strings
  // ---------------------------------------------------------------------------

  /**
   * The entries of a parameter object, in `Object.entries` order, which is
   * insertion order for the non-numeric keys `getFilters` builds
   * (frontend/js/main.js:231-236).
   */
  type Params = seq<(string, string)>

  /** The entries `qs` keeps: those whose value is not exactly "". */
  function Kept(params: Params): (r: Params)
    ensures |r| <= |params|
    ensures forall e :: e in r <==> e in params && e.1 != ""
  {
    if |params| == 0 then []
    else if params[0].1 == "" then Kept(params[1..])
    else [params[0]] + Kept(params[1..])
  }

  /** Filtering keeps the relative order of entries: it distributes over concatenation. */
  lemma {:induction false} KeptAppend(a: Params, b: Params)
    ensures Kept(a + b) == Kept(a) + Kept(b)
  {
    if |a| > 0 {
      var ab := a + b;
      assert ab[0] == a[0] && ab[1..] == a[1..] + b;
      KeptAppend(a[1..], b);
      if a[0].1 == "" {
        assert Kept(ab) == Kept(a[1..] + b);
      } else {
        assert Kept(ab) == [a[0]] + Kept(a[1..] + b);
      }
    } else {
      assert a + b == b;
    }
  }

  /** One `key=value` piece, both sides encoded. */
  function Piece(e: (string, string), encode: string -> string): string {
    encode(e.0) + "=" + encode(e.1)
  }

  function Pieces(entries: Params, encode: string -> string): (r: seq<string>)
    ensures |r| == |entries|
    ensures forall i :: 0 <= i < |r| ==> r[i] == Piece(entries[i], encode)
  {
    if |entries| == 0 then [] else [Piece(entries[0], encode)] + Pieces(entries[1..], encode)
  }

  /** `qs(params)`: "?" followed by the kept entries as `key=value` pieces joined by "&". */
  function Qs(params: Params, encode: string -> string): (r: string)
    ensures |r| >= 1 && r[0] == '?'
    ensures (forall i :: 0 <= i < |params| ==> params[i].1 == "") ==> r == "?"
  {
    var kept := Kept(params);
    assert (forall i :: 0 <= i < |params| ==> params[i].1 == "") ==> kept == [] by {
      if kept != [] {
        assert kept[0] in kept;
      }
    }
    "?" + Join(Pieces(kept, encode), '&')
  }

  /**
   * When the encoder never emits "&", the query string splits back into
   * exactly the kept pieces, in their original order.
   */
  lemma QsSplits(params: Params, encode: string -> string)
    requires |Kept(params)| >= 1
    requires forall i :: 0 <= i < |params| ==> '&' !in Piece(params[i], encode)
    ensures Split(Qs(params, encode)[1..], '&') == Pieces(Kept(params), encode)
  {
    var kept := Kept(params);
    var ps := Pieces(kept, encode);
    forall i | 0 <= i < |ps|
      ensures '&' !in ps[i]
    {
      assert kept[i] in kept;
    }
    SplitJoin(ps, '&');
  }

  // ---------------------------------------------------------------------------
  // HTML escaping
  // ---------------------------------------------------------------------------

  /** The replacement of one character: the five special ones become entities. */
  function EscapeChar(c: char): string {
    if c == '&' then "&amp;"
    else if c == '<' then "&lt;"
    else if c == '>' then "&gt;"
    else if c == '\'' then "&#39;"
    else if c == '"' then "&quot;"
    else [c]
  }

  predicate IsSpecial(c: char) {
    c == '&' || c == '<' || c == '>' || c == '\'' || c == '"'
  }

  predicate StartsWith(s: string, p: string) {
    |p| <= |s| && s[..|p|] == p
  }

  /** Position `i` of `t` starts one of the five entities. */
  predicate EntityAt(t: string, i: nat)
    requires i <= |t|
  {
    var rest := t[i..];
    StartsWith(rest, "&amp;") || StartsWith(rest, "&lt;") || StartsWith(rest, "&gt;")
      || StartsWith(rest, "&#39;") || StartsWith(rest, "&quot;")
  }

  /** Every "&" in `t` begins an entity. */
  predicate AmpersandsAreEntities(t: string) {
    forall i :: 0 <= i < |t| && t[i] == '&' ==> EntityAt(t, i)
  }

  /** A well-formed escaped prefix stays well formed whatever follows it, and vice versa. */
  lemma AmpersandsConcat(a: string, b: string)
    requires AmpersandsAreEntities(a) && AmpersandsAreEntities(b)
    ensures AmpersandsAreEntities(a + b)
  {
    var t := a + b;
    forall i | 0 <= i < |t| && t[i] == '&'
      ensures EntityAt(t, i)
    {
      if i < |a| {
        assert EntityAt(a, i);
        assert t[i..] == a[i..] + b;
      } else {
        assert t[i] == b[i - |a|];
        assert EntityAt(b, i - |a|);
        assert t[i..] == b[i - |a|..];
      }
    }
  }

  /** One escaped character holds no special character other than an entity-opening "&". */
  lemma EscapeCharSafe(c: char)
    ensures var e := EscapeChar(c);
      '<' !in e && '>' !in e && '"' !in e && '\'' !in e && AmpersandsAreEntities(e)
    ensures !IsSpecial(c) ==> EscapeChar(c) == [c]
  {
    var e := EscapeChar(c);
    if c == '&' {
      assert e == "&amp;";
      assert forall i :: 0 < i < |e| ==> e[i] != '&';
      assert EntityAt(e, 0);
    } else if c == '<' {
      assert e == "&lt;";
      assert EntityAt(e, 0);
    } else if c == '>' {
      assert EntityAt(e, 0);
    } else if c == '\'' {
      assert EntityAt(e, 0);
    } else if c == '"' {
      assert EntityAt(e, 0);
    }
  }

  /** `escapeHtml(s)`: each special character replaced by its entity. */
  function EscapeHtml(s: string): (r: string)
    ensures '<' !in r && '>' !in r && '"' !in r && '\'' !in r
    ensures AmpersandsAreEntities(r)
    ensures (forall i :: 0 <= i < |s| ==> !IsSpecial(s[i])) ==> r == s
    ensures |r| >= |s|
  {
    if |s| == 0 then ""
    else
      var head, tail := EscapeChar(s[0]), EscapeHtml(s[1..]);
      EscapeCharSafe(s[0]);
      AmpersandsConcat(head, tail);
      head + tail
  }

  /** Escaping is applied character by character: it distributes over concatenation. */
  lemma {:induction false} EscapeHtmlAppend(a: string, b: string)
    ensures EscapeHtml(a + b) == EscapeHtml(a) + EscapeHtml(b)
  {
    if |a| > 0 {
      assert (a + b)[1..] == a[1..] + b;
      EscapeHtmlAppend(a[1..], b);
    } else {
      assert a + b == b;
    }
  }

  /** Decoding of the five entities; any other character stands for itself. */
  function Unescape(t: string): string
    decreases |t|
  {
    if |t| == 0 then ""
    else if StartsWith(t, "&amp;") then "&" + Unescape(t[5..])
    else if StartsWith(t, "&lt;") then "<" + Unescape(t[4..])
    else if StartsWith(t, "&gt;") then ">" + Unescape(t[4..])
    else if StartsWith(t, "&#39;") then "'" + Unescape(t[5..])
    else if StartsWith(t, "&quot;") then "\"" + Unescape(t[6..])
    else [t[0]] + Unescape(t[1..])
  }

  /** Decoding one escaped character in front of any text yields that character. */
  lemma UnescapeChar(c: char, rest: string)
    ensures Unescape(EscapeChar(c) + rest) == [c] + Unescape(rest)
  {
    var t := EscapeChar(c) + rest;
    var e := EscapeChar(c);
    assert t[..|e|] == e;
    assert t[|e|..] == rest;
    if c == '&' {
      assert StartsWith(t, "&amp;");
    } else if c == '<' {
      assert t[1] == 'l';
      assert !StartsWith(t, "&amp;");
      assert StartsWith(t, "&lt;");
    } else if c == '>' {
      assert t[1] == 'g';
      assert !StartsWith(t, "&amp;") && !StartsWith(t, "&lt;");
      assert StartsWith(t, "&gt;");
    } else if c == '\'' {
      assert t[1] == '#';
      assert !StartsWith(t, "&amp;") && !StartsWith(t, "&lt;") && !StartsWith(t, "&gt;");
      assert StartsWith(t, "&#39;");
    } else if c == '"' {
      assert t[1] == 'q';
      assert !StartsWith(t, "&amp;") && !StartsWith(t, "&lt;") && !StartsWith(t, "&gt;");
      assert !StartsWith(t, "&#39;");
      assert StartsWith(t, "&quot;");
    } else {
      assert t[0] == c;
      assert !StartsWith(t, "&amp;") && !StartsWith(t, "&lt;") && !StartsWith(t, "&gt;");
      assert !StartsWith(t, "&#39;") && !StartsWith(t, "&quot;");
    }
  }

  /** Escaping loses nothing: decoding the escaped text gives back the original. */
  lemma {:induction false} UnescapeEscapeHtml(s: string)
    ensures Unescape(EscapeHtml(s)) == s
  {
    if |s| > 0 {
      UnescapeChar(s[0], EscapeHtml(s[1..]));
      UnescapeEscapeHtml(s[1..]);
      assert [s[0]] + s[1..] == s;
    }
  }
}
