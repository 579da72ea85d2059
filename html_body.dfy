/**
 * `fetch_title_link_from_elements` and `parse_html_body`: a depth-first walk of
 * the parsed HTML tree. An element whose serialization starts with `<a href=` and
 * mentions none of the noise words yields exactly one record and its subtree is
 * not visited; any other element hands the walk to its children, in order.
 * The walk is run from every `a` element of the document, in document order.
 */
module HtmlBody {
  import opened PyStr
  import opened Papers

  /** A node of the parsed document: its tag, its serialization (`etree.tostring`),
      the text that follows it (`element.tail`, possibly absent) and its children.
      `etree.tostring` includes the tail by default, so `markup` already ends with the
      tail text, and the anchor text built from it holds the tail twice. */
  datatype Element = Element(tag: string, markup: string, tail: Option<string>, children: seq<Element>)

  /** What a result link's serialization starts with. */
  const AnchorOpen := "<a href="

  /** Anchors mentioning any of these are not results (patents, library and share
      buttons, alert options). */
  const HtmlNoise: seq<string> := ["patent", "email_library_add", "scholar_share", "cancel_alert_options"]

  /** The marker of a redirected result link. */
  const RedirectMarker := "scholar_url?url="

  /** check_email.py:87: carriage returns, newlines and non-breaking spaces in the anchor text. */
  const Clean: seq<Substitution> := [Sub("&#13;", ""), Sub("\n", ""), Sub("&#160;", " "), Sub("\r", " ")]

  /** check_email.py:82-84: the element is a result anchor. */
  predicate IsResultAnchor(e: Element) {
    StartsWith(e.markup, AnchorOpen) && !ContainsAny(e.markup, HtmlNoise)
  }

  /** `str(element.tail)`: an absent tail prints as `None`. */
  function TailText(tail: Option<string>): (r: string)
    ensures tail.Some? ==> r == tail.value
    ensures tail.None? ==> r == "None"
  {
    match tail
    case None => "None"
    case Some(t) => t
  }

  /** check_email.py:86-87: serialization and tail, cleaned, then HTML-unescaped. */
  function AnchorText(e: Element, unescape: string -> string): string {
    unescape(ReplaceAll(e.markup + TailText(e.tail), Clean))
  }

  /** `text[m..n]` is the run right after the first `>` of `text`, up to the next `<`
      or `>`, or to the end. */
  predicate TitleSpan(text: string, m: int, n: int) {
    && 0 < m <= n <= |text|
    && OccursAt(text, ">", m - 1) && !Contains(text[..m - 1], ">")
    && !Contains(text[m..n], "<") && !Contains(text[m..n], ">")
    && (n == |text| || OccursAt(text, "<", n) || OccursAt(text, ">", n))
  }

  /** `t` is the run of `TitleSpan`, stripped. */
  ghost predicate IsTitleOf(text: string, t: string) {
    exists m, n :: TitleSpan(text, m, n) && t == Strip(text[m..n])
  }

  /** check_email.py:89: the text between the first `>` and the next `<`, stripped;
      IndexError (None) when the text has no `>`. */
  function AnchorTitle(text: string): (r: Option<string>)
    ensures r.Some? <==> Contains(text, ">")
    ensures r.Some? ==> !Contains(r.value, "<") && !Contains(r.value, ">")
    ensures r.Some? && |r.value| > 0 ==> r.value[0] !in Whitespace && r.value[|r.value| - 1] !in Whitespace
    ensures r.Some? ==> IsTitleOf(text, r.value)
  {
    match SecondField(text, ">")
    case None => None
    case Some(field) =>
      var inner := Before(field, "<");
      var title := Strip(inner);
      StripCharsInfix(inner, Whitespace);
      ContainsTrans(field, inner, title);
      InfixAvoids(inner, title, "<");
      InfixAvoids(field, title, ">");
      TitleSpanOf(text, Before(text, ">"), field, inner);
      Some(title)
  }

  /** The field after the first `>` (which follows the `>`-free prefix `head`), cut at
      its first `<`, is the title span. */
  lemma TitleSpanOf(text: string, head: string, field: string, inner: string)
    requires StartsWith(text, head) && !Contains(head, ">") && OccursAt(text, ">", |head|)
    requires OccursAt(text, field, |head| + 1) && !Contains(field, ">")
    requires |head| + 1 + |field| == |text| || OccursAt(text, ">", |head| + 1 + |field|)
    requires StartsWith(field, inner) && !Contains(inner, "<")
    requires Contains(field, "<") ==> OccursAt(field, "<", |inner|)
    requires !Contains(field, "<") ==> inner == field
    ensures IsTitleOf(text, Strip(inner))
  {
    var m := |head| + 1;
    var n := m + |inner|;
    assert text[m..n] == field[..|inner|];
    assert text[..m - 1] == head;
    assert OccursAt(field, inner, 0);
    InfixAvoids(field, inner, ">");
    if Contains(field, "<") {
      OccursWithin(text, field, m, "<", |inner|);
    }
    assert TitleSpan(text, m, n);
  }

  /** An infix of a text without `p` has no `p` either. */
  lemma InfixAvoids(s: string, t: string, p: string)
    requires Contains(s, t) && !Contains(s, p)
    ensures !Contains(t, p)
  {
    if Contains(t, p) {
      ContainsTrans(s, t, p);
    }
  }

  /** check_email.py:91-94 for a redirected link: the target after the marker, cut after its first
      `.pdf` (which is appended if missing) and before its first `&`; IndexError (None)
      when the link itself lacks the marker. */
  function RedirectTarget(link: string): (r: Option<string>)
    ensures r.Some? <==> Contains(link, RedirectMarker)
    ensures r.Some? ==> !Contains(r.value, "&")
    ensures r.Some? ==>
      var cut := Before(SecondField(link, RedirectMarker).value, ".pdf") + ".pdf";
      && StartsWith(cut, r.value)
      && (Contains(cut, "&") ==> OccursAt(cut, "&", |r.value|))
      && (!Contains(cut, "&") ==> r.value == cut)
  {
    match SecondField(link, RedirectMarker)
    case None => None
    case Some(target) => Some(Before(Before(target, ".pdf") + ".pdf", "&"))
  }

  /** check_email.py:90-94: the second space-separated field with `href=` removed, unwrapped
      when the text mentions the redirect marker; IndexError (None) when the text has
      no space, or mentions the marker only outside that field. */
  function AnchorLink(text: string): (r: Option<string>)
    ensures r.None? <==> !Contains(text, " ")
                         || (Contains(text, RedirectMarker)
                             && !Contains(Replace(SecondField(text, " ").value, "href=", ""), RedirectMarker))
    ensures r.Some? && !Contains(text, RedirectMarker) ==>
      r.value == Replace(SecondField(text, " ").value, "href=", "")
    ensures Contains(text, " ") && Contains(text, RedirectMarker) ==>
      r == RedirectTarget(Replace(SecondField(text, " ").value, "href=", ""))
    ensures r.Some? && Contains(text, RedirectMarker) ==> !Contains(r.value, "&")
  {
    match SecondField(text, " ")
    case None => None
    case Some(field) =>
      var link := Replace(field, "href=", "");
      if Contains(text, RedirectMarker) then RedirectTarget(link) else Some(link)
  }

  /** check_email.py:86-95: the one record of a result anchor, or IndexError. */
  function AnchorRecord(e: Element, unescape: string -> string): (r: Result<Paper>)
    ensures r.Ok? <==> AnchorTitle(AnchorText(e, unescape)).Some? && AnchorLink(AnchorText(e, unescape)).Some?
  {
    var text := AnchorText(e, unescape);
    match AnchorTitle(text)
    case None => IndexError
    case Some(title) =>
      match AnchorLink(text)
      case None => IndexError
      case Some(link) => Ok(Paper(title, link))
  }

  /** The record extraction for a given `html.unescape`. */
  function RecordOf(unescape: string -> string): Element -> Result<Paper> {
    (e: Element) => AnchorRecord(e, unescape)
  }

  /*
   * The walk of check_email.py:77-104, stated for any acceptance test `accept` and record
   * extraction `record`; `Fetch` below instantiates it with check_email.py:82-84 and check_email.py:86-95.
   */

  /** The records of `e`'s subtree: one if `e` is accepted, else its children's. */
  function Walk(e: Element, accept: Element -> bool, record: Element -> Result<Paper>): Result<seq<Paper>>
    decreases e
  {
    if accept(e) then
      match record(e)
      case IndexError => IndexError
      case Ok(p) => Ok([p])
    else
      WalkAll(e.children, accept, record)
  }

  /** `out.extend(walk(x))` for each `x` of `es`, in order; the first IndexError ends it. */
  function WalkAll(es: seq<Element>, accept: Element -> bool, record: Element -> Result<Paper>): Result<seq<Paper>>
    decreases es
  {
    if es == [] then Ok([])
    else
      match Walk(es[0], accept, record)
      case IndexError => IndexError
      case Ok(ps) => Prepend(ps, WalkAll(es[1..], accept, record))
  }

  /** `d` is `e` or lies below it. */
  ghost predicate InTree(d: Element, e: Element)
    decreases e
  {
    d == e || exists k :: 0 <= k < |e.children| && InTree(d, e.children[k])
  }

  /** `d` lies in one of the trees `es`. */
  ghost predicate InForest(d: Element, es: seq<Element>) {
    exists k :: 0 <= k < |es| && InTree(d, es[k])
  }

  /** `p` is the record of an accepted element somewhere in `e`. */
  ghost predicate RecordIn(p: Paper, e: Element, accept: Element -> bool, record: Element -> Result<Paper>) {
    exists d :: InTree(d, e) && accept(d) && record(d) == Ok(p)
  }

  /** `x` below `y` below `z` is below `z`. */
  lemma {:induction false} InTreeTrans(x: Element, y: Element, z: Element)
    requires InTree(x, y) && InTree(y, z)
    ensures InTree(x, z)
    decreases z
  {
    if y != z {
      var k :| 0 <= k < |z.children| && InTree(y, z.children[k]);
      InTreeTrans(x, y, z.children[k]);
    }
  }

  /** Every record the walk returns is the record of an accepted element of the tree. */
  lemma {:induction false} WalkSound(e: Element, accept: Element -> bool, record: Element -> Result<Paper>, ps: seq<Paper>)
    requires Walk(e, accept, record) == Ok(ps)
    ensures forall p :: p in ps ==> RecordIn(p, e, accept, record)
    decreases e
  {
    if accept(e) {
      assert InTree(e, e);
    } else {
      WalkAllSound(e.children, accept, record, ps);
      forall p | p in ps ensures RecordIn(p, e, accept, record) {
        var k :| 0 <= k < |e.children| && RecordIn(p, e.children[k], accept, record);
        var d :| InTree(d, e.children[k]) && accept(d) && record(d) == Ok(p);
        assert InTree(d, e);
      }
    }
  }

  lemma {:induction false} WalkAllSound(es: seq<Element>, accept: Element -> bool, record: Element -> Result<Paper>, ps: seq<Paper>)
    requires WalkAll(es, accept, record) == Ok(ps)
    ensures forall p :: p in ps ==> exists k :: 0 <= k < |es| && RecordIn(p, es[k], accept, record)
    decreases es
  {
    if es != [] {
      var head := Walk(es[0], accept, record).value;
      var rest := WalkAll(es[1..], accept, record).value;
      assert ps == head + rest;
      WalkSound(es[0], accept, record, head);
      WalkAllSound(es[1..], accept, record, rest);
      forall p | p in ps ensures exists k :: 0 <= k < |es| && RecordIn(p, es[k], accept, record) {
        if p in head {
          assert RecordIn(p, es[0], accept, record);
        } else {
          var k :| 0 <= k < |es[1..]| && RecordIn(p, es[1..][k], accept, record);
          assert es[1..][k] == es[k + 1];
        }
      }
    }
  }

  /** The walk over a list raises exactly when the walk from one of its elements does. */
  lemma {:induction false} WalkAllRaise(es: seq<Element>, accept: Element -> bool, record: Element -> Result<Paper>)
    ensures WalkAll(es, accept, record).IndexError? <==> exists k :: 0 <= k < |es| && Walk(es[k], accept, record).IndexError?
    decreases es
  {
    if es != [] {
      WalkAllRaise(es[1..], accept, record);
      if Walk(es[0], accept, record).Ok? {
        forall k | 1 <= k < |es| ensures es[k] == es[1..][k - 1] { }
      }
    }
  }

  /** When the walk over a list succeeds, the walk from each of its elements succeeds
      and contributes all of its records. */
  lemma {:induction false} WalkAllHas(es: seq<Element>, accept: Element -> bool, record: Element -> Result<Paper>, ps: seq<Paper>, k: nat)
    requires WalkAll(es, accept, record) == Ok(ps) && k < |es|
    ensures Walk(es[k], accept, record).Ok?
    ensures forall p :: p in Walk(es[k], accept, record).value ==> p in ps
    decreases es
  {
    var head := Walk(es[0], accept, record).value;
    var rest := WalkAll(es[1..], accept, record).value;
    assert ps == head + rest;
    if k > 0 {
      WalkAllHas(es[1..], accept, record, rest, k - 1);
      assert es[1..][k - 1] == es[k];
    }
  }

  /** The walk from every element of `anchors` in order, its records assigned to a
      fresh dict in order; the first IndexError ends it. */
  function Parsed(anchors: seq<Element>, accept: Element -> bool, record: Element -> Result<Paper>): Result<seq<Paper>> {
    match WalkAll(anchors, accept, record)
    case IndexError => IndexError
    case Ok(ps) => Ok(FromPairs(ps))
  }

  /** The two loops of `parse_html_body` over the anchors it was given. */
  method ParseAnchors(anchors: seq<Element>, accept: Element -> bool, record: Element -> Result<Paper>) returns (r: Result<seq<Paper>>)
    ensures r == Parsed(anchors, accept, record)
  {
    var titles: seq<Paper> := [];
    PrependNil(WalkAll(anchors, accept, record));
    for i := 0 to |anchors|
      invariant WalkAll(anchors, accept, record) == Prepend(titles, WalkAll(anchors[i..], accept, record))
    {
      assert anchors[i..][0] == anchors[i] && anchors[i..][1..] == anchors[i + 1..];
      var found := Walk(anchors[i], accept, record);
      if found.IndexError? {
        return IndexError;
      }
      PrependPrepend(titles, found.value, WalkAll(anchors[i + 1..], accept, record));
      titles := titles + found.value;
    }
    assert anchors[|anchors|..] == [];
    assert titles + [] == titles;
    var ret := AssignPairs(titles);
    return Ok(ret);
  }

  /** The parse raises exactly when the walk from one of the anchors does. */
  lemma ParsedRaisesIff(anchors: seq<Element>, accept: Element -> bool, record: Element -> Result<Paper>)
    ensures Parsed(anchors, accept, record).IndexError? <==>
      exists k :: 0 <= k < |anchors| && Walk(anchors[k], accept, record).IndexError?
  {
    WalkAllRaise(anchors, accept, record);
  }

  /** Every entry of the parsed dict is the record of an accepted element below one of
      the anchors, and no title is stored twice. */
  lemma ParsedSound(anchors: seq<Element>, accept: Element -> bool, record: Element -> Result<Paper>, d: seq<Paper>)
    requires Parsed(anchors, accept, record) == Ok(d)
    ensures DistinctTitles(d)
    ensures forall p :: p in d ==> exists k :: 0 <= k < |anchors| && RecordIn(p, anchors[k], accept, record)
  {
    var ps := WalkAll(anchors, accept, record).value;
    WalkAllSound(anchors, accept, record, ps);
    FromPairsEntries(ps);
  }

  /** Every record found is kept under its title, holding the link of the last record
      with that title. */
  lemma ParsedLastWins(anchors: seq<Element>, accept: Element -> bool, record: Element -> Result<Paper>, ps: seq<Paper>, k: nat)
    requires WalkAll(anchors, accept, record) == Ok(ps)
    requires k < |ps| && forall j :: k < j < |ps| ==> ps[j].title != ps[k].title
    ensures Parsed(anchors, accept, record).Ok?
    ensures ps[k].title in ToMap(Parsed(anchors, accept, record).value)
    ensures ToMap(Parsed(anchors, accept, record).value)[ps[k].title] == ps[k].link
  {
    FromPairsLastWins(ps, k);
  }

  /** `fetch_title_link_from_elements(e)`: the records of `e`'s subtree. */
  function Fetch(e: Element, unescape: string -> string): Result<seq<Paper>> {
    Walk(e, IsResultAnchor, RecordOf(unescape))
  }

  /** A result anchor is never descended into: it yields its own record or raises. */
  lemma FetchAccepted(e: Element, unescape: string -> string)
    requires IsResultAnchor(e)
    ensures Fetch(e, unescape).Ok? <==> AnchorRecord(e, unescape).Ok?
    ensures Fetch(e, unescape).Ok? ==> Fetch(e, unescape).value == [AnchorRecord(e, unescape).value]
    ensures forall cs :: Fetch(e.(children := cs), unescape) == Fetch(e, unescape)
  {
  }

  /** Any other element contributes exactly what its children do, in order. */
  lemma FetchRejected(e: Element, unescape: string -> string)
    requires !IsResultAnchor(e)
    ensures Fetch(e, unescape) == WalkAll(e.children, IsResultAnchor, RecordOf(unescape))
    ensures e.children == [] ==> Fetch(e, unescape) == Ok([])
  {
  }

  /** Every record of a walk is that of a result anchor of the subtree, so none comes
      from an anchor whose serialization mentions a patent. */
  lemma FetchSound(e: Element, unescape: string -> string, ps: seq<Paper>)
    requires Fetch(e, unescape) == Ok(ps)
    ensures forall p :: p in ps ==> exists d :: InTree(d, e) && IsResultAnchor(d) && AnchorRecord(d, unescape) == Ok(p)
    ensures forall p :: p in ps ==> exists d :: InTree(d, e) && !Contains(d.markup, "patent") && AnchorRecord(d, unescape) == Ok(p)
  {
    var record := RecordOf(unescape);
    WalkSound(e, IsResultAnchor, record, ps);
    forall p | p in ps
      ensures exists d :: InTree(d, e) && IsResultAnchor(d) && AnchorRecord(d, unescape) == Ok(p)
      ensures exists d :: InTree(d, e) && !Contains(d.markup, "patent") && AnchorRecord(d, unescape) == Ok(p)
    {
      var d :| InTree(d, e) && IsResultAnchor(d) && record(d) == Ok(p);
      assert HtmlNoise[0] == "patent";
    }
  }

  /** `hl.iter('a')`: the `a` elements of the tree in document (pre-)order, nested
      anchors included. */
  function IterAnchors(e: Element): seq<Element>
    decreases e
  {
    (if e.tag == "a" then [e] else []) + IterAnchorsAll(e.children)
  }

  function IterAnchorsAll(es: seq<Element>): seq<Element>
    decreases es
  {
    if es == [] then [] else IterAnchors(es[0]) + IterAnchorsAll(es[1..])
  }

  /** What `iter('a')` yields are `a` elements of the tree. */
  lemma {:induction false} IterAnchorsInTree(e: Element)
    ensures forall k :: 0 <= k < |IterAnchors(e)| ==> IterAnchors(e)[k].tag == "a" && InTree(IterAnchors(e)[k], e)
    decreases e
  {
    var own: seq<Element> := if e.tag == "a" then [e] else [];
    var below := IterAnchorsAll(e.children);
    IterAnchorsAllInForest(e.children);
    forall k | 0 <= k < |IterAnchors(e)| ensures IterAnchors(e)[k].tag == "a" && InTree(IterAnchors(e)[k], e) {
      if k >= |own| {
        assert IterAnchors(e)[k] == below[k - |own|];
        var j :| 0 <= j < |e.children| && InTree(below[k - |own|], e.children[j]);
      }
    }
  }

  lemma {:induction false} IterAnchorsAllInForest(es: seq<Element>)
    ensures forall k :: 0 <= k < |IterAnchorsAll(es)| ==> IterAnchorsAll(es)[k].tag == "a" && InForest(IterAnchorsAll(es)[k], es)
    decreases es
  {
    if es != [] {
      var first: seq<Element> := IterAnchors(es[0]);
      var rest: seq<Element> := IterAnchorsAll(es[1..]);
      IterAnchorsInTree(es[0]);
      IterAnchorsAllInForest(es[1..]);
      forall k | 0 <= k < |first + rest| ensures (first + rest)[k].tag == "a" && InForest((first + rest)[k], es) {
        if k < |first| {
          assert InTree(first[k], es[0]);
        } else {
          var j :| 0 <= j < |es[1..]| && InTree(rest[k - |first|], es[1..][j]);
          assert es[1..][j] == es[j + 1];
        }
      }
    }
  }

  /** Every `a` element of the tree is among those `iter('a')` yields. */
  lemma {:induction false} IterAnchorsComplete(x: Element, e: Element)
    requires InTree(x, e) && x.tag == "a"
    ensures x in IterAnchors(e)
    decreases e
  {
    if x != e {
      var k :| 0 <= k < |e.children| && InTree(x, e.children[k]);
      IterAnchorsAllHas(x, e.children, k);
    }
  }

  lemma {:induction false} IterAnchorsAllHas(x: Element, es: seq<Element>, k: nat)
    requires k < |es| && InTree(x, es[k]) && x.tag == "a"
    ensures x in IterAnchorsAll(es)
    decreases es
  {
    if k == 0 {
      IterAnchorsComplete(x, es[0]);
    } else {
      IterAnchorsAllHas(x, es[1..], k - 1);
      assert es[1..][k - 1] == es[k];
    }
  }

  /** What `parse_html_body` returns for the parsed document `root`: the walk from
      every anchor in document order (check_email.py:113-115), the records assigned to a fresh
      dict in order (check_email.py:117-118). */
  function HtmlRecords(root: Element, unescape: string -> string): Result<seq<Paper>> {
    Parsed(IterAnchors(root), IsResultAnchor, RecordOf(unescape))
  }

  /** `parse_html_body` on the parsed document `root`. */
  method ParseHtmlBody(root: Element, unescape: string -> string) returns (r: Result<seq<Paper>>)
    ensures r == HtmlRecords(root, unescape)
  {
    r := ParseAnchors(IterAnchors(root), IsResultAnchor, RecordOf(unescape));
  }

  /** Every entry of the parsed dict is the record of a result anchor of the document,
      and no title is stored twice. */
  lemma HtmlBodySound(root: Element, unescape: string -> string, d: seq<Paper>)
    requires HtmlRecords(root, unescape) == Ok(d)
    ensures DistinctTitles(d)
    ensures forall p :: p in d ==> exists x :: InTree(x, root) && IsResultAnchor(x) && AnchorRecord(x, unescape) == Ok(p)
  {
    var anchors := IterAnchors(root);
    var record := RecordOf(unescape);
    ParsedSound(anchors, IsResultAnchor, record, d);
    IterAnchorsInTree(root);
    forall p | p in d ensures exists x :: InTree(x, root) && IsResultAnchor(x) && AnchorRecord(x, unescape) == Ok(p) {
      var k :| 0 <= k < |anchors| && RecordIn(p, anchors[k], IsResultAnchor, record);
      var x :| InTree(x, anchors[k]) && IsResultAnchor(x) && record(x) == Ok(p);
      InTreeTrans(x, anchors[k], root);
    }
  }

  /** Conversely, when the parse succeeds, every result anchor of the document yields a
      record, and its title is a key of the result. */
  lemma HtmlBodyComplete(root: Element, unescape: string -> string, d: seq<Paper>, x: Element)
    requires HtmlRecords(root, unescape) == Ok(d)
    requires InTree(x, root) && x.tag == "a" && IsResultAnchor(x)
    ensures AnchorRecord(x, unescape).Ok?
    ensures AnchorRecord(x, unescape).value.title in ToMap(d)
  {
    var anchors := IterAnchors(root);
    var record := RecordOf(unescape);
    IterAnchorsComplete(x, root);
    var k :| 0 <= k < |anchors| && anchors[k] == x;
    var ps := WalkAll(anchors, IsResultAnchor, record).value;
    WalkAllHas(anchors, IsResultAnchor, record, ps, k);
    var p := AnchorRecord(x, unescape).value;
    assert p in ps;
    var i :| 0 <= i < |ps| && ps[i] == p;
    assert Titles(ps)[i] == p.title;
    FromPairsKeys(ps);
  }
}
