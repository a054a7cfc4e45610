/**
 The part of the browser host's `initialize` (src/view-browser.js, lines
 33-89) that decides where the first model comes from, and the file-pick and
 drop handlers that accept a user's file.

 Precedence: a `file` <meta> tag wins and loads from '/data'; otherwise a
 non-empty `url` query parameter is loaded; otherwise the welcome page is
 shown and nothing loads until the user picks or drops exactly one file.
 */
module Startup {
  import opened Wrappers
  import opened Location

  /** What `initialize` does about the first model. */
  datatype Action =
    | OpenModel(url: string, identifier: string)   // `_openModel(url, identifier)`
    | ShowWelcome                                  // `view.show('Welcome')`, then wait for the user

  /** The host's state after `initialize`: its `version` and `type` getters, and the action taken. */
  datatype Host = Host(version: string, appType: string, action: Action)

  /**
   The <meta> tags collected on lines 40-46: each name maps to the contents of
   the tags of that name in document order. A tag with empty content is
   skipped (line 42), and a name is only entered together with its first
   content, so no list is empty and no content is empty.
   */
  predicate IsMetaMap(meta: map<string, seq<string>>) {
    (forall name :: name in meta ==> |meta[name]| > 0) &&
    (forall name, k :: name in meta && 0 <= k < |meta[name]| ==> meta[name][k] != "")
  }

  /** `meta.name ? meta.name[0] : default`. */
  function FirstOr(meta: map<string, seq<string>>, name: string, default: string): (r: string)
    requires IsMetaMap(meta)
    ensures name in meta ==> r == meta[name][0]
    ensures name !in meta ==> r == default
  {
    if name in meta then meta[name][0] else default
  }

  /** `_getQueryParameter(name) || ''`: a missing parameter reads as the empty string. */
  function QueryText(href: string, name: string, uriDecode: string -> string): string
    requires IsLiteralName(name)
  {
    GetQueryParameter(href, name, uriDecode).GetOr("")
  }

  /** The two parameter names the host asks for contain no regular-expression metacharacter. */
  lemma ParameterNamesAreLiteral()
    ensures IsLiteralName("url") && IsLiteralName("identifier")
  {
    var url, identifier := "url", "identifier";
    forall c | c in url ensures !IsRegexMeta(c) {
      assert c == url[0] || c == url[1] || c == url[2];
    }
    forall c | c in identifier ensures !IsRegexMeta(c) {
      assert exists i :: 0 <= i < |identifier| && c == identifier[i];
    }
  }

  /**
   Lines 51-62. `href` is `window.location.href` and `uriDecode` stands for
   `decodeURIComponent`.
   */
  function ResolveSource(meta: map<string, seq<string>>, href: string, uriDecode: string -> string): (a: Action)
    requires IsMetaMap(meta)
    ensures "file" in meta ==> a == OpenModel("/data", LastSegment(meta["file"][0]))
    ensures "file" !in meta ==> (a.OpenModel? <==> QueryText(href, "url", uriDecode) != "")
    ensures "file" !in meta && a.OpenModel? ==>
      a.url == QueryText(href, "url", uriDecode) &&
      (QueryText(href, "identifier", uriDecode) != "" ==> a.identifier == QueryText(href, "identifier", uriDecode)) &&
      (QueryText(href, "identifier", uriDecode) == "" ==> a.identifier == LastSegment(a.url))
  {
    ParameterNamesAreLiteral();
    if "file" in meta then
      OpenModel("/data", LastSegment(meta["file"][0]))
    else
      var urlParam := QueryText(href, "url", uriDecode);
      if urlParam != "" then
        var identifier := QueryText(href, "identifier", uriDecode);
        OpenModel(urlParam, if identifier != "" then identifier else LastSegment(urlParam))
      else
        ShowWelcome
  }

  /** Lines 48-62: the version and type default to '0.0.0' and 'Browser'. */
  function Initialize(meta: map<string, seq<string>>, href: string, uriDecode: string -> string): (h: Host)
    requires IsMetaMap(meta)
    ensures "version" in meta ==> h.version == meta["version"][0]
    ensures "version" !in meta ==> h.version == "0.0.0"
    ensures "type" in meta ==> h.appType == meta["type"][0]
    ensures "type" !in meta ==> h.appType == "Browser"
    ensures h.action == ResolveSource(meta, href, uriDecode)
  {
    Host(FirstOr(meta, "version", "0.0.0"), FirstOr(meta, "type", "Browser"), ResolveSource(meta, href, uriDecode))
  }

  /** A `file` <meta> tag takes precedence: the address is then not consulted at all. */
  lemma MetaFileIgnoresAddress(meta: map<string, seq<string>>, href1: string, href2: string, uriDecode: string -> string)
    requires IsMetaMap(meta) && "file" in meta
    ensures ResolveSource(meta, href1, uriDecode) == ResolveSource(meta, href2, uriDecode)
    ensures ResolveSource(meta, href1, uriDecode).url == "/data"
  {
  }

  /**
   An address `...?url=U&identifier=I` loads the model at U (after `+` to
   space and percent-decoding) and shows it under the name I, not under the
   last segment of U.
   */
  lemma UrlAndIdentifierParameters(meta: map<string, seq<string>>, prefix: string, u: string, id: string,
                                   uriDecode: string -> string)
    requires IsMetaMap(meta) && "file" !in meta
    requires '?' !in prefix && '&' !in prefix
    requires u != "" && '?' !in u && '&' !in u && '#' !in u
    requires id != "" && '&' !in id && '#' !in id
    requires uriDecode(PlusToSpace(u)) != "" && uriDecode(PlusToSpace(id)) != ""
    ensures ResolveSource(meta, prefix + "?url=" + u + "&identifier=" + id, uriDecode) ==
      OpenModel(uriDecode(PlusToSpace(u)), uriDecode(PlusToSpace(id)))
  {
    ParameterNamesAreLiteral();
    var href := prefix + "?url=" + u + "&identifier=" + id;
    QueryLayout(prefix, u, id);
    QueryParameterWithValue(prefix, '?', "url", u, "&identifier=" + id, uriDecode);
    QueryParameterWithValue(prefix + "?url=" + u, '&', "identifier", id, "", uriDecode);
  }

  /** The address `prefix?url=u&identifier=id` seen from each of its two parameters. */
  lemma QueryLayout(prefix: string, u: string, id: string)
    requires '?' !in prefix && '&' !in prefix
    requires '?' !in u && '&' !in u
    ensures var href := prefix + "?url=" + u + "&identifier=" + id;
      href == prefix + ['?'] + "url" + "=" + u + ("&identifier=" + id) &&
      href == (prefix + "?url=" + u) + ['&'] + "identifier" + "=" + id + "" &&
      NoMatchBefore(href, "url", |prefix|) &&
      NoMatchBefore(href, "identifier", |prefix + "?url=" + u|)
  {
    var href := prefix + "?url=" + u + "&identifier=" + id;
    assert "?url=" == ['?'] + "url" + "=";
    assert "&identifier=" == ['&'] + "identifier" + "=";
    assert id + "" == id;
    forall q | 0 <= q < |prefix| ensures href[q] != '?' && href[q] != '&' {
      assert href[q] == prefix[q] && prefix[q] in prefix;
    }
    forall q | |prefix| + 1 <= q < |prefix| + 5 + |u| ensures href[q] != '?' && href[q] != '&' {
      if q < |prefix| + 5 {
        assert href[q] == "?url="[q - |prefix|];
      } else {
        assert href[q] == u[q - |prefix| - 5] && u[q - |prefix| - 5] in u;
      }
    }
    assert href[|prefix| + 1] == 'u' != "identifier"[0];
  }

  /**
   An address `...?url=U` with no `identifier` parameter names the model after
   the last `/`-segment of the decoded U.
   */
  lemma UrlParameterAlone(meta: map<string, seq<string>>, prefix: string, u: string, uriDecode: string -> string)
    requires IsMetaMap(meta) && "file" !in meta
    requires '?' !in prefix && '&' !in prefix
    requires u != "" && '?' !in u && '&' !in u && '#' !in u
    requires uriDecode(PlusToSpace(u)) != ""
    ensures ResolveSource(meta, prefix + "?url=" + u, uriDecode) ==
      OpenModel(uriDecode(PlusToSpace(u)), LastSegment(uriDecode(PlusToSpace(u))))
  {
    ParameterNamesAreLiteral();
    SingleParameterLayout(prefix, u);
    QueryParameterWithValue(prefix, '?', "url", u, "", uriDecode);
  }

  /** The address `prefix?url=u` holds a `url` parameter and nothing `identifier` could match. */
  lemma SingleParameterLayout(prefix: string, u: string)
    requires '?' !in prefix && '&' !in prefix
    requires '?' !in u && '&' !in u
    ensures var href := prefix + "?url=" + u;
      href == prefix + ['?'] + "url" + "=" + u + "" &&
      NoMatchBefore(href, "url", |prefix|) &&
      forall p :: !MatchesAt(href, "identifier", p)
  {
    var href := prefix + "?url=" + u;
    assert "?url=" == ['?'] + "url" + "=";
    assert u + "" == u;
    forall q | 0 <= q < |href| && q != |prefix| ensures href[q] != '?' && href[q] != '&' {
      if q < |prefix| {
        assert href[q] == prefix[q] && prefix[q] in prefix;
      } else if q < |prefix| + 5 {
        assert href[q] == "?url="[q - |prefix|];
      } else {
        assert href[q] == u[q - |prefix| - 5] && u[q - |prefix| - 5] in u;
      }
    }
    assert href[|prefix| + 1] == 'u' != "identifier"[0];
  }

  /**
   The change handler of the file dialog (line 71) and the drop handler
   (line 84): `files` is `e.target.files` or `e.dataTransfer.files`, missing
   when the event carries none. A file is opened only when exactly one is carried.
   */
  function AcceptedFile<F>(files: Option<seq<F>>): (r: Option<F>)
    ensures r.Some? <==> files.Some? && |files.value| == 1
    ensures r.Some? ==> files.value == [r.value]
  {
    if files.Some? && |files.value| == 1 then Some(files.value[0]) else None
  }
}
