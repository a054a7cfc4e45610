/**
 The two helpers of the browser host that read `window.location.href`:
 `_url` (src/view-browser.js, lines 197-207), which joins a file name to the
 page's base address, and `_getQueryParameter` (lines 209-221), which pulls one
 parameter out of the address with a regular expression. Also
 `split('/').pop()`, which the startup code uses to name a model after the
 last path segment of its address.
 */
module Location {
  import opened Wrappers

  /** `s.split(sep).shift()`: the text before the first `sep`, or all of `s`. */
  function BeforeFirst(s: string, sep: char): (r: string)
    ensures r <= s && sep !in r
    ensures |r| < |s| ==> s[|r|] == sep
  {
    if |s| == 0 || s[0] == sep then "" else [s[0]] + BeforeFirst(s[1..], sep)
  }

  /** `s.split(sep).pop()`: the text after the last `sep`, or all of `s`. */
  function AfterLast(s: string, sep: char): (r: string)
    ensures |r| <= |s| && r == s[|s| - |r|..] && sep !in r
    ensures |r| < |s| ==> s[|s| - |r| - 1] == sep
  {
    if |s| == 0 || s[|s| - 1] == sep then "" else AfterLast(s[..|s| - 1], sep) + [s[|s| - 1]]
  }

  /** The last `/`-separated segment of a path or address. */
  function LastSegment(path: string): (r: string)
    ensures '/' !in r
  {
    AfterLast(path, '/')
  }

  /** The last segment of `dir + "/" + name` is `name` itself whenever it holds no `/`. */
  lemma {:induction false} LastSegmentOfJoin(dir: string, name: string)
    requires '/' !in name
    ensures LastSegment(dir + "/" + name) == name
    decreases |name|
  {
    var s := dir + "/" + name;
    if |name| > 0 {
      var init := name[..|name| - 1];
      assert s[..|s| - 1] == dir + "/" + init;
      assert name[|name| - 1] in name;
      LastSegmentOfJoin(dir, init);
      assert init + [name[|name| - 1]] == name;
    }
  }

  /** Position `n` of `h` is its end or a `?`: the address part of `h` stops there. */
  predicate StopsAt(h: string, n: nat) {
    n == |h| || (n < |h| && h[n] == '?')
  }

  /**
   `base` is the part of `h` before its first `?`, with at most one trailing
   `/` removed (and one removed whenever there was one).
   */
  predicate IsBaseOf(base: string, h: string) {
    base <= h && '?' !in base &&
    ((StopsAt(h, |base|) && (|base| == 0 || base[|base| - 1] != '/')) ||
     (|base| < |h| && h[|base|] == '/' && StopsAt(h, |base| + 1)))
  }

  /**
   `_url(file)`: with no (or an empty) `window.location.href` the file name is
   returned as is; otherwise it is appended to the page's base address.
   */
  function Url(href: Option<string>, file: string): (r: string)
    ensures href.None? || href.value == "" ==> r == file
    ensures href.Some? && href.value != "" ==>
      |file| <= |r| && r[|r| - |file|..] == file && IsBaseOf(r[..|r| - |file|], href.value)
  {
    if href.None? || href.value == "" then file
    else
      var location := BeforeFirst(href.value, '?');
      var trimmed := if |location| > 0 && location[|location| - 1] == '/' then location[..|location| - 1] else location;
      assert (trimmed + file)[..|trimmed|] == trimmed;
      trimmed + file
  }

  /** The base address is unique, so `Url` is determined by the two properties above. */
  lemma BaseIsUnique(b1: string, b2: string, h: string)
    requires IsBaseOf(b1, h) && IsBaseOf(b2, h)
    ensures b1 == b2
  {
  }

  /**
   A regular-expression metacharacter that `_getQueryParameter` leaves
   unescaped (only `[` and `]` are escaped, on line 211).
   */
  predicate IsRegexMeta(c: char) {
    c == '\\' || c == '^' || c == '$' || c == '.' || c == '|' || c == '?' || c == '*' || c == '+' ||
    c == '(' || c == ')' || c == '{' || c == '}'
  }

  /** `name` reads the same as a regular expression and as plain text (after the bracket escaping). */
  predicate IsLiteralName(name: string) {
    forall c :: c in name ==> !IsRegexMeta(c)
  }

  /**
   The pattern `[?&]name(=([^&#]*)|&|#|$)` of line 212 matches with its `[?&]`
   at position `p` of `href`.
   */
  predicate MatchesAt(href: string, name: string, p: nat) {
    p + 1 + |name| <= |href| &&
    (href[p] == '?' || href[p] == '&') &&
    href[p + 1..p + 1 + |name|] == name &&
    (p + 1 + |name| == |href| || href[p + 1 + |name|] in "=&#")
  }

  /** No match of the pattern starts before position `p`. */
  predicate NoMatchBefore(href: string, name: string, p: nat) {
    forall q :: 0 <= q < p ==> !MatchesAt(href, name, q)
  }

  /** `RegExp.prototype.exec`: the leftmost position at or after `from` where the pattern matches. */
  function FirstMatch(href: string, name: string, from: nat): (r: Option<nat>)
    ensures r.None? ==> forall q :: from <= q ==> !MatchesAt(href, name, q)
    ensures r.Some? ==>
      from <= r.value && MatchesAt(href, name, r.value) &&
      (forall q :: from <= q < r.value ==> !MatchesAt(href, name, q))
    decreases |href| - from
  {
    if from >= |href| then None
    else if MatchesAt(href, name, from) then Some(from)
    else FirstMatch(href, name, from + 1)
  }

  /** The greedy group `([^&#]*)`: the longest prefix of `s` without `&` or `#`. */
  function ValueRun(s: string): (r: string)
    ensures r <= s && '&' !in r && '#' !in r
    ensures |r| < |s| ==> s[|r|] in "&#"
  {
    if |s| == 0 || s[0] == '&' || s[0] == '#' then "" else [s[0]] + ValueRun(s[1..])
  }

  /** `s.replace(/\+/g, " ")`. */
  function PlusToSpace(s: string): (r: string)
    ensures |r| == |s|
    ensures forall k :: 0 <= k < |s| ==> r[k] == (if s[k] == '+' then ' ' else s[k])
  {
    if |s| == 0 then "" else [if s[0] == '+' then ' ' else s[0]] + PlusToSpace(s[1..])
  }

  /**
   `_getQueryParameter(name)` read against the address `href`.
   `uriDecode` stands for `decodeURIComponent`. `None` is the source's `null`.
   */
  function GetQueryParameter(href: string, name: string, uriDecode: string -> string): (r: Option<string>)
    requires IsLiteralName(name)
    ensures r.None? <==> forall p :: !MatchesAt(href, name, p)
    ensures r.Some? && r.value != "" ==>
      exists p: nat, raw: string :: MatchesAt(href, name, p) && (forall q :: 0 <= q < p ==> !MatchesAt(href, name, q)) &&
        var start := p + 2 + |name|;
        start <= |href| && href[start - 1] == '=' && raw == ValueRun(href[start..]) &&
        raw != "" && r.value == uriDecode(PlusToSpace(raw))
  {
    match FirstMatch(href, name, 0)
    case None => None
    case Some(p) =>
      var after := p + 1 + |name|;
      if after < |href| && href[after] == '=' then
        var raw := ValueRun(href[after + 1..]);
        if raw == "" then Some("") else Some(uriDecode(PlusToSpace(raw)))
      else Some("")
  }

  /** The greedy group stops exactly at the first `&` or `#`. */
  lemma {:induction false} ValueRunStopsAtDelimiter(value: string, suffix: string)
    requires '&' !in value && '#' !in value
    requires suffix == "" || suffix[0] == '&' || suffix[0] == '#'
    ensures ValueRun(value + suffix) == value
    decreases |value|
  {
    if value == "" {
      assert value + suffix == suffix;
    } else {
      assert value[0] in value;
      assert (value + suffix)[1..] == value[1..] + suffix;
      ValueRunStopsAtDelimiter(value[1..], suffix);
    }
  }

  /** When the leftmost match sits at `p`, it is the one `exec` reports. */
  lemma FirstMatchIsLeftmost(href: string, name: string, p: nat)
    requires MatchesAt(href, name, p) && NoMatchBefore(href, name, p)
    ensures FirstMatch(href, name, 0) == Some(p)
  {
  }

  /** The value read when the leftmost match at `p` is followed by `=`. */
  lemma QueryParameterAt(href: string, name: string, p: nat, raw: string, uriDecode: string -> string)
    requires IsLiteralName(name)
    requires MatchesAt(href, name, p) && NoMatchBefore(href, name, p)
    requires p + 1 + |name| < |href| && href[p + 1 + |name|] == '='
    requires raw == ValueRun(href[p + 2 + |name|..]) && raw != ""
    ensures GetQueryParameter(href, name, uriDecode) == Some(uriDecode(PlusToSpace(raw)))
  {
    FirstMatchIsLeftmost(href, name, p);
  }

  /** Where the pieces of `prefix + [sep] + name + rest` sit. */
  lemma ParameterLayout(prefix: string, sep: char, name: string, rest: string)
    ensures var href := prefix + [sep] + name + rest; var p := |prefix|;
      |href| == p + 1 + |name| + |rest| && href[p] == sep &&
      href[p + 1..p + 1 + |name|] == name && href[p + 1 + |name|..] == rest
  {
    var href := prefix + [sep] + name + rest;
    assert href[|prefix| + 1..|prefix| + 1 + |name|] == name;
  }

  /** Where the pieces of `prefix + [sep] + name + "=" + value + suffix` sit. */
  lemma ValueLayout(prefix: string, sep: char, name: string, value: string, suffix: string)
    ensures var href := prefix + [sep] + name + "=" + value + suffix; var after := |prefix| + 1 + |name|;
      after < |href| && href[|prefix|] == sep && href[|prefix| + 1..after] == name &&
      href[after] == '=' && href[after + 1..] == value + suffix
  {
    var href := prefix + [sep] + name + "=" + value + suffix;
    assert href == prefix + [sep] + name + ("=" + value + suffix);
    ParameterLayout(prefix, sep, name, "=" + value + suffix);
  }

  /**
   A parameter written `name=value` is read back as its value, with `+` turned
   into a space and then percent-decoded, provided no earlier `?name` or
   `&name` in the address already matches.
   */
  lemma QueryParameterWithValue(prefix: string, sep: char, name: string, value: string, suffix: string,
                                uriDecode: string -> string)
    requires IsLiteralName(name)
    requires sep == '?' || sep == '&'
    requires value != "" && '&' !in value && '#' !in value
    requires suffix == "" || suffix[0] == '&' || suffix[0] == '#'
    requires NoMatchBefore(prefix + [sep] + name + "=" + value + suffix, name, |prefix|)
    ensures GetQueryParameter(prefix + [sep] + name + "=" + value + suffix, name, uriDecode) ==
      Some(uriDecode(PlusToSpace(value)))
  {
    var href := prefix + [sep] + name + "=" + value + suffix;
    var p := |prefix|;
    ValueLayout(prefix, sep, name, value, suffix);
    ValueRunStopsAtDelimiter(value, suffix);
    QueryParameterAt(href, name, p, value, uriDecode);
  }

  /**
   A parameter present without a value (`name` followed by `&`, `#`, the end,
   or an `=` with nothing after it) is read back as the empty string.
   */
  lemma QueryParameterWithoutValue(prefix: string, sep: char, name: string, suffix: string,
                                   uriDecode: string -> string)
    requires IsLiteralName(name)
    requires sep == '?' || sep == '&'
    requires suffix == "" || suffix[0] == '&' || suffix[0] == '#' ||
             (suffix[0] == '=' && (|suffix| == 1 || suffix[1] == '&' || suffix[1] == '#'))
    requires NoMatchBefore(prefix + [sep] + name + suffix, name, |prefix|)
    ensures GetQueryParameter(prefix + [sep] + name + suffix, name, uriDecode) == Some("")
  {
    var href := prefix + [sep] + name + suffix;
    var p := |prefix|;
    ParameterLayout(prefix, sep, name, suffix);
    FirstMatchIsLeftmost(href, name, p);
    if suffix != "" && suffix[0] == '=' {
      assert href[p + 2 + |name|..] == suffix[1..];
      ValueRunStopsAtDelimiter("", suffix[1..]);
    }
  }
}
