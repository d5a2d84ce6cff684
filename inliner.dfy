/**
 * `WebGetter.inline` and `WebGetter.getexternalresource`: images become data URIs,
 * stylesheet links become style elements, and scripts from the page's own host are
 * embedded. The page is a list of elements in document order; the three passes rewrite
 * that list in place, at the positions the source's selectors find.
 */
module Inliner {
  import opened Wrappers
  import opened Env

  /**
   * Why inlining raised: an element lacks the attribute the source indexes (KeyError), a
   * resource gave no data, so the source went on with None (TypeError), or the image type
   * was not recognised (None concatenated to a string).
   */
  datatype InlineError =
    | MissingAttribute(tag: string, attr: string)
    | FetchFailed(url: string)
    | UnknownImageType(url: string)

  /** The three passes of `inline`, in the order it runs them. */
  datatype Pass = Images | Stylesheets | Scripts

  /** Fetch `path` relative to the page `uri`: data only for status 200 or 304. */
  function GetExternalResource(lib: Lib, net: Net, path: string, uri: string): (r: Option<string>)
    ensures r.Some? <==> net(lib.join(uri, path)).status in {200, 304}
    ensures r.Some? ==> r.value == net(lib.join(uri, path)).data
  {
    var req := net(lib.join(uri, path));
    if req.status == 200 || req.status == 304 then Some(req.data) else None
  }

  /** What `soup.select('link[rel="stylesheet"]')` finds. */
  predicate IsStylesheetLink(e: Element) {
    e.name == "link" && "rel" in e.attrs && e.attrs["rel"] == "stylesheet"
  }

  function DataUri(imgtype: string, payload: string): string {
    "data:image/" + imgtype + ";base64," + payload
  }

  /** The rewrite of one `img` element: only its `src` may change. */
  function ImageStep(lib: Lib, net: Net, page: string, img: Element): (r: Result<Element, InlineError>)
    ensures r.Failure? ==> r.error == MissingAttribute("img", "src") || r.error.FetchFailed? || r.error.UnknownImageType?
    ensures r.Success? ==>
              && r.value.name == img.name && r.value.body == img.body && r.value.attrs.Keys == img.attrs.Keys
              && forall a :: a in img.attrs && a != "src" ==> r.value.attrs[a] == img.attrs[a]
  {
    if "src" !in img.attrs then Failure(MissingAttribute("img", "src"))
    else
      var ref := img.attrs["src"];
      if lib.parse(ref).scheme == "data" then Success(img)
      else
        match GetExternalResource(lib, net, ref, page)
        case None => Failure(FetchFailed(lib.join(page, ref)))
        case Some(raw) =>
          match lib.sniff(raw)
          case None => Failure(UnknownImageType(lib.join(page, ref)))
          case Some(imgtype) => Success(img.(attrs := img.attrs["src" := DataUri(imgtype, lib.base64(raw))]))
  }

  /** The rewrite of one stylesheet link into a style element that names no stylesheet. */
  function StylesheetStep(lib: Lib, net: Net, page: string, link: Element): (r: Result<Element, InlineError>)
    ensures r.Failure? ==> r.error == MissingAttribute("link", "href") || r.error.FetchFailed?
    ensures r.Success? ==> r.value.name == "style" && "rel" !in r.value.attrs && "href" !in r.value.attrs
  {
    if "href" !in link.attrs then Failure(MissingAttribute("link", "href"))
    else
      match GetExternalResource(lib, net, link.attrs["href"], page)
      case None => Failure(FetchFailed(lib.join(page, link.attrs["href"])))
      case Some(styles) => Success(Element("style", (link.attrs - {"rel", "href"})["type" := "text/css"], styles))
  }

  /** The rewrite of one `script` element: only a same-host or host-less source is embedded. */
  function ScriptStep(lib: Lib, net: Net, page: string, script: Element): (r: Result<Element, InlineError>)
    ensures r.Failure? ==> r.error == MissingAttribute("script", "src") || r.error.FetchFailed?
    ensures r.Success? ==> r.value == script || (r.value.name == script.name && r.value.attrs == script.attrs - {"src"})
  {
    if "src" !in script.attrs then Failure(MissingAttribute("script", "src"))
    else
      var ref := script.attrs["src"];
      var host := lib.parse(ref).netloc;
      if lib.parse(page).netloc == host || host == "" then
        match GetExternalResource(lib, net, ref, page)
        case None => Failure(FetchFailed(lib.join(page, ref)))
        case Some(contents) => Success(script.(attrs := script.attrs - {"src"}, body := contents))
      else Success(script)
  }

  /** One pass applied to one element: elements its selector does not find stay as they are. */
  function Apply(pass: Pass, lib: Lib, net: Net, page: string, e: Element): Result<Element, InlineError> {
    match pass
    case Images => if e.name == "img" then ImageStep(lib, net, page, e) else Success(e)
    case Stylesheets => if IsStylesheetLink(e) then StylesheetStep(lib, net, page, e) else Success(e)
    case Scripts => if e.name == "script" then ScriptStep(lib, net, page, e) else Success(e)
  }

  /** One pass over the page, front to back; it stops at the first element that raises. */
  function PassResult(pass: Pass, lib: Lib, net: Net, page: string, s: seq<Element>): (r: Result<seq<Element>, InlineError>)
    ensures r.Success? ==> |r.value| == |s|
    decreases |s|
  {
    if s == [] then Success([])
    else
      match PassResult(pass, lib, net, page, s[..|s| - 1])
      case Failure(err) => Failure(err)
      case Success(done) =>
        match Apply(pass, lib, net, page, s[|s| - 1])
        case Failure(err) => Failure(err)
        case Success(e) => Success(done + [e])
  }

  /** The whole of `inline`: images, then stylesheets, then scripts. */
  function InlineSpec(lib: Lib, net: Net, page: string, s: seq<Element>): (r: Result<seq<Element>, InlineError>)
    ensures r.Success? ==> |r.value| == |s|
  {
    match PassResult(Images, lib, net, page, s)
    case Failure(err) => Failure(err)
    case Success(s1) =>
      match PassResult(Stylesheets, lib, net, page, s1)
      case Failure(err) => Failure(err)
      case Success(s2) => PassResult(Scripts, lib, net, page, s2)
  }

  /**
   * The rewrite each element receives, independent of the order of the passes: only an
   * image, a stylesheet link or a script can raise, and only a link changes its tag.
   */
  function Rewrite(lib: Lib, net: Net, page: string, e: Element): (r: Result<Element, InlineError>)
    ensures r.Failure? ==> e.name == "img" || IsStylesheetLink(e) || e.name == "script"
    ensures r.Success? && r.value.name != e.name ==> IsStylesheetLink(e) && r.value.name == "style"
  {
    if e.name == "img" then ImageStep(lib, net, page, e)
    else if IsStylesheetLink(e) then StylesheetStep(lib, net, page, e)
    else if e.name == "script" then ScriptStep(lib, net, page, e)
    else Success(e)
  }

  lemma {:induction false} FailurePersists(pass: Pass, lib: Lib, net: Net, page: string, s: seq<Element>, i: nat)
    requires i <= |s| && PassResult(pass, lib, net, page, s[..i]).Failure?
    ensures PassResult(pass, lib, net, page, s) == PassResult(pass, lib, net, page, s[..i])
    decreases |s|
  {
    if i < |s| {
      assert s[..|s| - 1][..i] == s[..i];
      FailurePersists(pass, lib, net, page, s[..|s| - 1], i);
    } else {
      assert s[..i] == s;
    }
  }

  /**
   * A pass succeeds exactly when every element's rewrite does; it then adds and removes
   * no element and rewrites each in its place.
   */
  lemma {:induction false} PassElementwise(pass: Pass, lib: Lib, net: Net, page: string, s: seq<Element>)
    ensures PassResult(pass, lib, net, page, s).Success?
            <==> forall k :: 0 <= k < |s| ==> Apply(pass, lib, net, page, s[k]).Success?
    ensures PassResult(pass, lib, net, page, s).Success? ==>
              var out := PassResult(pass, lib, net, page, s).value;
              |out| == |s| && forall k :: 0 <= k < |s| ==> out[k] == Apply(pass, lib, net, page, s[k]).value
    decreases |s|
  {
    if s != [] {
      var init := s[..|s| - 1];
      PassElementwise(pass, lib, net, page, init);
      assert forall k :: 0 <= k < |init| ==> init[k] == s[k];
      if PassResult(pass, lib, net, page, init).Failure? {
        var k :| 0 <= k < |init| && Apply(pass, lib, net, page, init[k]).Failure?;
        assert Apply(pass, lib, net, page, s[k]).Failure?;
      }
    }
  }

  /** The passes touch disjoint kinds of element, so one after another they do its Rewrite. */
  lemma ChainIsRewrite(lib: Lib, net: Net, page: string, e: Element)
    ensures var r1 := Apply(Images, lib, net, page, e);
      var r2 := if r1.Success? then Apply(Stylesheets, lib, net, page, r1.value) else r1;
      var r3 := if r2.Success? then Apply(Scripts, lib, net, page, r2.value) else r2;
      r3 == Rewrite(lib, net, page, e)
  {
  }

  /**
   * Inlining a page succeeds exactly when every element's own rewrite does; then the page
   * keeps its length and every element is rewritten in its place by its own rule.
   */
  lemma InlineElementwise(lib: Lib, net: Net, page: string, s: seq<Element>)
    ensures InlineSpec(lib, net, page, s).Success?
            <==> forall k :: 0 <= k < |s| ==> Rewrite(lib, net, page, s[k]).Success?
    ensures InlineSpec(lib, net, page, s).Success? ==>
              var out := InlineSpec(lib, net, page, s).value;
              |out| == |s| && forall k :: 0 <= k < |s| ==> out[k] == Rewrite(lib, net, page, s[k]).value
  {
    PassElementwise(Images, lib, net, page, s);
    var r1 := PassResult(Images, lib, net, page, s);
    if r1.Failure? {
      var k :| 0 <= k < |s| && Apply(Images, lib, net, page, s[k]).Failure?;
      ChainIsRewrite(lib, net, page, s[k]);
      return;
    }
    PassElementwise(Stylesheets, lib, net, page, r1.value);
    var r2 := PassResult(Stylesheets, lib, net, page, r1.value);
    if r2.Failure? {
      var k :| 0 <= k < |r1.value| && Apply(Stylesheets, lib, net, page, r1.value[k]).Failure?;
      ChainIsRewrite(lib, net, page, s[k]);
      return;
    }
    PassElementwise(Scripts, lib, net, page, r2.value);
    var r3 := PassResult(Scripts, lib, net, page, r2.value);
    assert InlineSpec(lib, net, page, s) == r3;
    if r3.Failure? {
      var k :| 0 <= k < |r2.value| && Apply(Scripts, lib, net, page, r2.value[k]).Failure?;
      ChainIsRewrite(lib, net, page, s[k]);
      return;
    }
    forall k | 0 <= k < |s|
      ensures Rewrite(lib, net, page, s[k]) == Success(r3.value[k])
    {
      ChainIsRewrite(lib, net, page, s[k]);
    }
  }

  /** An image with a `data:` source is left alone; any other gets a data URI of the fetched bytes. */
  lemma ImageRule(lib: Lib, net: Net, page: string, img: Element)
    requires img.name == "img"
    ensures "src" !in img.attrs ==> Rewrite(lib, net, page, img) == Failure(MissingAttribute("img", "src"))
    ensures "src" in img.attrs && lib.parse(img.attrs["src"]).scheme == "data" ==>
              Rewrite(lib, net, page, img) == Success(img)
    ensures "src" in img.attrs && lib.parse(img.attrs["src"]).scheme != "data" ==>
              var raw := GetExternalResource(lib, net, img.attrs["src"], page);
              (Rewrite(lib, net, page, img).Success? <==> raw.Some? && lib.sniff(raw.value).Some?)
              && (Rewrite(lib, net, page, img).Success? ==>
                    Rewrite(lib, net, page, img).value
                    == img.(attrs := img.attrs["src" := DataUri(lib.sniff(raw.value).value, lib.base64(raw.value))]))
  {
  }

  /** A stylesheet link becomes a `text/css` style element holding the fetched text, with no rel or href. */
  lemma StylesheetRule(lib: Lib, net: Net, page: string, link: Element)
    requires IsStylesheetLink(link)
    ensures "href" !in link.attrs ==> Rewrite(lib, net, page, link) == Failure(MissingAttribute("link", "href"))
    ensures "href" in link.attrs ==>
              var styles := GetExternalResource(lib, net, link.attrs["href"], page);
              (Rewrite(lib, net, page, link).Success? <==> styles.Some?)
              && (styles.Some? ==>
                    var out := Rewrite(lib, net, page, link).value;
                    && out.name == "style"
                    && "rel" !in out.attrs && "href" !in out.attrs
                    && out.attrs.Keys == link.attrs.Keys - {"rel", "href"} + {"type"}
                    && out.attrs["type"] == "text/css"
                    && out.body == styles.value
                    && forall a :: a in link.attrs && a !in {"rel", "href", "type"} ==>
                         a in out.attrs && out.attrs[a] == link.attrs[a])
  {
  }

  /**
   * A script is embedded (source removed, body the fetched text) exactly when its source's
   * host is the page's host or empty; a cross-host script is left as it is.
   */
  lemma ScriptRule(lib: Lib, net: Net, page: string, script: Element)
    requires script.name == "script"
    ensures "src" !in script.attrs ==> Rewrite(lib, net, page, script) == Failure(MissingAttribute("script", "src"))
    ensures "src" in script.attrs ==>
              var host := lib.parse(script.attrs["src"]).netloc;
              var contents := GetExternalResource(lib, net, script.attrs["src"], page);
              && (host != lib.parse(page).netloc && host != "" ==> Rewrite(lib, net, page, script) == Success(script))
              && (host == lib.parse(page).netloc || host == "" ==>
                    (Rewrite(lib, net, page, script).Success? <==> contents.Some?)
                    && (contents.Some? ==>
                          Rewrite(lib, net, page, script).value
                          == Element("script", script.attrs - {"src"}, contents.value)))
  {
  }

  /** One more element of a pass that has succeeded so far. */
  lemma PassExtends(pass: Pass, lib: Lib, net: Net, page: string, s: seq<Element>, i: nat, done: seq<Element>)
    requires i < |s| && PassResult(pass, lib, net, page, s[..i]) == Success(done)
    ensures PassResult(pass, lib, net, page, s[..i + 1])
            == match Apply(pass, lib, net, page, s[i])
               case Failure(e) => Failure(e)
               case Success(e) => Success(done + [e])
  {
    assert s[..i + 1][..i] == s[..i];
  }

  /** One pass, run in place over the page as the source's `for` loop does. */
  method RunPass(pass: Pass, lib: Lib, net: Net, page: string, doc: array<Element>) returns (err: Option<InlineError>)
    modifies doc
    ensures match PassResult(pass, lib, net, page, old(doc[..]))
      case Success(out) => err == None && doc[..] == out
      case Failure(e) => err == Some(e)
  {
    ghost var before := doc[..];
    var i := 0;
    while i < doc.Length
      invariant 0 <= i <= doc.Length
      invariant PassResult(pass, lib, net, page, before[..i]) == Success(doc[..i])
      invariant doc[i..] == before[i..]
    {
      assert doc[i] == before[i];
      match Apply(pass, lib, net, page, doc[i])
      case Failure(e) =>
        PassExtends(pass, lib, net, page, before, i, doc[..i]);
        FailurePersists(pass, lib, net, page, before, i + 1);
        return Some(e);
      case Success(rewritten) =>
        PassExtends(pass, lib, net, page, before, i, doc[..i]);
        doc[i] := rewritten;
        assert doc[..i + 1] == doc[..i] + [rewritten];
        i := i + 1;
    }
    assert before[..i] == before;
    assert doc[..i] == doc[..];
    err := None;
  }

  /** `inline(htmldata, uri)`: parse, run the three passes in place, give back the page. */
  method Inline(lib: Lib, net: Net, htmldata: string, uri: string) returns (r: Result<seq<Element>, InlineError>)
    ensures r == InlineSpec(lib, net, uri, lib.parseHtml(htmldata))
  {
    var soup := lib.parseHtml(htmldata);
    var doc := new Element[|soup|](k requires 0 <= k < |soup| => soup[k]);
    assert doc[..] == soup;
    var err := RunPass(Images, lib, net, uri, doc);
    if err.Some? {
      return Failure(err.value);
    }
    err := RunPass(Stylesheets, lib, net, uri, doc);
    if err.Some? {
      return Failure(err.value);
    }
    err := RunPass(Scripts, lib, net, uri, doc);
    if err.Some? {
      return Failure(err.value);
    }
    r := Success(doc[..]);
  }
}
