/**
 * The dataset the alert scanner keeps between runs: the title-to-link dict read
 * from the `;`-separated workfile, the merge of each admitted mail's records into
 * it with a count of titles seen again, and the write-back of the dict.
 */
module Store {
  import opened PyStr
  import opened Papers
  import opened Filters
  import opened PlainBody
  import opened HtmlBody

  /** The workfile line written for one entry: `title;link` and a newline. */
  function SaveLine(p: Paper): string {
    p.title + ";" + p.link + "\n"
  }

  /** check_email.py:219-221: one line per entry, in insertion order. */
  function SaveLines(d: seq<Paper>): (lines: seq<string>)
    ensures |lines| == |d|
    ensures forall k :: 0 <= k < |d| ==> lines[k] == SaveLine(d[k])
  {
    if d == [] then [] else [SaveLine(d[0])] + SaveLines(d[1..])
  }

  /** check_email.py:131 for one line: the text before the first `;` is the title, the text between
      the first and the second `;` with its newlines removed is the link; IndexError
      (None) when the line has no `;`. */
  function LoadLine(l: string): (r: Option<Paper>)
    ensures r.Some? <==> Contains(l, ";")
    ensures r.Some? ==> !Contains(r.value.title, ";") && StartsWith(l, r.value.title)
    ensures r.Some? ==> OccursAt(l, ";", |r.value.title|)
    ensures r.Some? ==> r.value.link == Replace(SecondField(l, ";").value, "\n", "")
    ensures r.Some? ==> ';' !in r.value.link && '\n' !in r.value.link
  {
    match SecondField(l, ";")
    case None => None
    case Some(field) =>
      ContainsChar(field, ';');
      ReplaceChars(field, "\n", "");
      ReplaceDeletesChar(field, '\n');
      Some(Paper(Before(l, ";"), Replace(field, "\n", "")))
  }

  /** Every line of the file has a `;`, so the load loop runs to the end. */
  predicate Loadable(lines: seq<string>) {
    forall k :: 0 <= k < |lines| ==> Contains(lines[k], ";")
  }

  /** The results of `f` along `xs` up to the first missing one. */
  function WhileSome<A, B>(xs: seq<A>, f: A -> Option<B>): (ys: seq<B>)
    ensures |ys| <= |xs|
  {
    if xs == [] then []
    else
      match f(xs[0])
      case None => []
      case Some(y) => [y] + WhileSome(xs[1..], f)
  }

  /** When `f` gives a result everywhere, those are all collected, in order. */
  lemma {:induction false} WhileSomeAll<A, B>(xs: seq<A>, f: A -> Option<B>, ys: seq<B>)
    requires |xs| == |ys|
    requires forall k :: 0 <= k < |xs| ==> f(xs[k]) == Some(ys[k])
    ensures WhileSome(xs, f) == ys
  {
    if xs != [] {
      WhileSomeAll(xs[1..], f, ys[1..]);
      assert ys == [ys[0]] + ys[1..];
    }
  }

  /** The pairs the load loop assigns, up to the first line without `;`. */
  function Loaded(lines: seq<string>): seq<Paper> {
    WhileSome(lines, LoadLine)
  }

  /** A pair survives the workfile format when neither part holds the separator or a
      line break. */
  predicate Storable(p: Paper) {
    ';' !in p.title && '\n' !in p.title && ';' !in p.link && '\n' !in p.link
  }

  /** Loading a saved line gives back its entry. */
  lemma LoadSavedLine(p: Paper)
    requires Storable(p)
    ensures LoadLine(SaveLine(p)) == Some(p)
  {
    var tail := p.link + "\n";
    assert SaveLine(p) == p.title + [';'] + tail;
    SplitAtFirst(p.title, ';', tail);
    ContainsChar(tail, ';');
    assert Before(tail, ";") == tail;
    DropTrailingChar(p.link, '\n');
  }

  /** Every saved line has the separator, so loading them never raises. */
  lemma SavedLinesLoadable(d: seq<Paper>)
    ensures Loadable(SaveLines(d))
  {
    forall k | 0 <= k < |d| ensures Contains(SaveLines(d)[k], ";") {
      var l := SaveLine(d[k]);
      assert l[|d[k].title|] == ';';
      ContainsChar(l, ';');
    }
  }

  /** Loading the saved lines reassigns every entry, in order. */
  lemma LoadSavedLines(d: seq<Paper>)
    requires forall k :: 0 <= k < |d| ==> Storable(d[k])
    ensures Loaded(SaveLines(d)) == d
  {
    var lines := SaveLines(d);
    forall k | 0 <= k < |lines| ensures LoadLine(lines[k]) == Some(d[k]) {
      LoadSavedLine(d[k]);
    }
    WhileSomeAll(lines, LoadLine, d);
  }

  /** A save followed by a load into a fresh dict reproduces the dict. */
  lemma SaveLoadRoundTrip(d: seq<Paper>)
    requires DistinctTitles(d)
    requires forall k :: 0 <= k < |d| ==> Storable(d[k])
    ensures FromPairs(Loaded(SaveLines(d))) == d
  {
    LoadSavedLines(d);
    assert [] + d == d;
    PutAllDistinct([], d);
  }

  /** `f.readlines()` on the file's text: lines split after each newline, which is kept. */
  function ReadLines(s: string): seq<string>
    decreases |s|
  {
    if s == [] then []
    else
      match Find(s, "\n")
      case None => [s]
      case Some(k) => [s[..k + 1]] + ReadLines(s[k + 1..])
  }

  /** The text of a file written line by line. */
  function Written(lines: seq<string>): string {
    if lines == [] then "" else lines[0] + Written(lines[1..])
  }

  /** Reading back a line that ends at its only newline. */
  lemma ReadLinesCons(x: string, rest: string)
    requires '\n' !in x
    ensures ReadLines(x + "\n" + rest) == [x + "\n"] + ReadLines(rest)
  {
    var s := x + "\n" + rest;
    FindFirstChar(x, '\n', rest);
    assert s[..|x| + 1] == x + "\n" && s[|x| + 1..] == rest;
  }

  /** Reading the written workfile gives back exactly the lines that were saved. */
  lemma {:induction false} ReadSavedLines(d: seq<Paper>)
    requires forall k :: 0 <= k < |d| ==> Storable(d[k])
    ensures ReadLines(Written(SaveLines(d))) == SaveLines(d)
    decreases |d|
  {
    if d != [] {
      var lines := SaveLines(d);
      assert lines[1..] == SaveLines(d[1..]);
      ReadSavedLines(d[1..]);
      var x := d[0].title + ";" + d[0].link;
      assert SaveLine(d[0]) == x + "\n";
      assert Written(lines) == x + "\n" + Written(lines[1..]);
      ReadLinesCons(x, Written(lines[1..]));
    }
  }

  /** The body of a mail as the scanner sees it: plain text, the parts a multipart mail's
      `walk()` yields (only HTML parts matter), or anything else. */
  datatype Part = HtmlPart(root: Element) | OtherPart
  datatype Body = PlainText(lines: seq<string>) | Multipart(parts: seq<Part>) | OtherBody

  /** The first HTML part of a multipart mail, if any. */
  function FirstHtml(parts: seq<Part>): (r: Option<Element>)
    ensures r.None? <==> forall k :: 0 <= k < |parts| ==> parts[k].OtherPart?
    ensures r.Some? ==> exists k :: 0 <= k < |parts| && parts[k] == HtmlPart(r.value)
                           && forall j :: 0 <= j < k ==> parts[j].OtherPart?
  {
    if parts == [] then None
    else if parts[0].HtmlPart? then Some(parts[0].root)
    else
      var r := FirstHtml(parts[1..]);
      assert forall k :: 1 <= k < |parts| ==> parts[k] == parts[1..][k - 1];
      r
  }

  /** check_email.py:194-202: a multipart mail contributes the parse of its first HTML part. */
  function PartsRecords(parts: seq<Part>, unescape: string -> string): Result<seq<Paper>> {
    match FirstHtml(parts)
    case None => Ok([])
    case Some(root) => HtmlRecords(root, unescape)
  }

  /** check_email.py:180-202: the records a mail contributes; none unless its subject is
      whitelisted, then the plain-text parse or the parse of the first HTML part. */
  function MailRecords(subject: string, body: Body, unescape: string -> string): Result<seq<Paper>> {
    if !CheckSubjectWhitelist(subject) then Ok([])
    else
      match body
      case PlainText(lines) => PlainRecords(lines)
      case Multipart(parts) => PartsRecords(parts, unescape)
      case OtherBody => Ok([])
  }

  /** check_email.py:195-202: walk the parts until the first HTML one, parse it and stop. */
  method ParseParts(parts: seq<Part>, unescape: string -> string) returns (r: Result<seq<Paper>>)
    ensures r == PartsRecords(parts, unescape)
  {
    var k := 0;
    while k < |parts|
      invariant 0 <= k <= |parts|
      invariant FirstHtml(parts) == FirstHtml(parts[k..])
      decreases |parts| - k
    {
      assert parts[k..][0] == parts[k] && parts[k..][1..] == parts[k + 1..];
      if parts[k].HtmlPart? {
        r := ParseHtmlBody(parts[k].root, unescape);
        return;
      }
      k := k + 1;
    }
    assert parts[k..] == [];
    return Ok([]);
  }

  /** check_email.py:180-202 up to the merge: the records of one fetched mail, with the
      branches and the `for part … break` loop as the source writes them; its ensures
      ties it to `MailRecords`, the specification the lemmas below reason about. */
  method ParseMail(subject: string, body: Body, unescape: string -> string) returns (r: Result<seq<Paper>>)
    ensures r == MailRecords(subject, body, unescape)
  {
    if !CheckSubjectWhitelist(subject) {
      return Ok([]);
    }
    match body
    case PlainText(lines) =>
      r := ParsePlainBody(lines);
    case Multipart(parts) =>
      r := ParseParts(parts, unescape);
    case OtherBody =>
      r := Ok([]);
  }

  /** A mail outside the whitelist never contributes, whatever its body. */
  lemma UnlistedMailIgnored(subject: string, body: Body, unescape: string -> string)
    requires !CheckSubjectWhitelist(subject)
    ensures MailRecords(subject, body, unescape) == Ok([])
  {
  }

  /** Every record a mail contributes carries a distinct title. */
  lemma MailRecordsDistinct(subject: string, body: Body, unescape: string -> string)
    requires MailRecords(subject, body, unescape).Ok?
    ensures DistinctTitles(MailRecords(subject, body, unescape).value)
  {
    if CheckSubjectWhitelist(subject) {
      match body
      case PlainText(lines) =>
        PlainBodyKeys(lines);
      case Multipart(parts) =>
        if FirstHtml(parts).Some? {
          HtmlBodySound(FirstHtml(parts).value, unescape, PartsRecords(parts, unescape).value);
        }
      case OtherBody =>
    }
  }

  /** `mydata` and `doubles` of `scan_email_starttls`. */
  class PaperStore {
    /** The title-to-link dict, in insertion order. */
    var papers: seq<Paper>
    /** How many merged records had a title already present. */
    var doubles: nat

    ghost predicate Valid()
      reads this
    {
      DistinctTitles(papers)
    }

    /** check_email.py:126 and check_email.py:141: an empty dict and a zero count. */
    constructor ()
      ensures Valid()
      ensures papers == [] && doubles == 0
    {
      papers := [];
      doubles := 0;
    }

    /** check_email.py:130-131: assign the pair of each workfile line in order; `ok` is false when
        a line without `;` raised, after the lines before it were assigned. */
    method Load(lines: seq<string>) returns (ok: bool)
      requires Valid()
      modifies this
      ensures Valid()
      ensures ok <==> Loadable(lines)
      ensures papers == PutAll(old(papers), Loaded(lines))
      ensures doubles == old(doubles)
    {
      ok := true;
      assert lines[0..] == lines;
      for i := 0 to |lines|
        invariant DistinctTitles(papers)
        invariant PutAll(papers, Loaded(lines[i..])) == PutAll(old(papers), Loaded(lines))
        invariant forall k :: 0 <= k < i ==> Contains(lines[k], ";")
        invariant doubles == old(doubles)
      {
        assert lines[i..][0] == lines[i] && lines[i..][1..] == lines[i + 1..];
        var p := LoadLine(lines[i]);
        if p.None? {
          assert Loaded(lines[i..]) == [];
          return false;
        }
        PutDistinct(papers, p.value);
        papers := Put(papers, p.value);
      }
      assert lines[|lines|..] == [];
    }

    /** check_email.py:189-193 and check_email.py:198-201: assign each record in order, counting those whose
        title is already present. */
    method Merge(records: seq<Paper>)
      requires Valid()
      modifies this
      ensures Valid()
      ensures papers == PutAll(old(papers), records)
      ensures doubles == old(doubles) + Doubles(old(papers), records)
    {
      assert records[0..] == records;
      for i := 0 to |records|
        invariant DistinctTitles(papers)
        invariant PutAll(papers, records[i..]) == PutAll(old(papers), records)
        invariant doubles + Doubles(papers, records[i..]) == old(doubles) + Doubles(old(papers), records)
      {
        assert records[i..][0] == records[i] && records[i..][1..] == records[i + 1..];
        if records[i].title in Titles(papers) {
          doubles := doubles + 1;
        }
        PutDistinct(papers, records[i]);
        papers := Put(papers, records[i]);
      }
      assert records[|records|..] == [];
    }

    /** check_email.py:219-221: the lines written to the workfile. */
    method Save() returns (lines: seq<string>)
      ensures lines == SaveLines(papers)
    {
      lines := [];
      for i := 0 to |papers|
        invariant |lines| == i
        invariant forall k :: 0 <= k < i ==> lines[k] == SaveLine(papers[k])
      {
        lines := lines + [SaveLine(papers[i])];
      }
    }

    /** check_email.py:180-202 for one fetched mail: parse it if its subject is whitelisted and
        merge what it yields; `ok` is false when the parse raised, and nothing changes. */
    method Ingest(subject: string, body: Body, unescape: string -> string) returns (ok: bool)
      requires Valid()
      modifies this
      ensures Valid()
      ensures ok <==> MailRecords(subject, body, unescape).Ok?
      ensures ok ==> papers == PutAll(old(papers), MailRecords(subject, body, unescape).value)
      ensures ok ==> doubles == old(doubles) + Doubles(old(papers), MailRecords(subject, body, unescape).value)
      ensures !ok ==> papers == old(papers) && doubles == old(doubles)
    {
      var found := ParseMail(subject, body, unescape);
      if found.IndexError? {
        return false;
      }
      Merge(found.value);
      return true;
    }
  }

  /** A merged record is present afterwards with its link, titles not merged keep their
      link, and the count grows by the number of merged titles already present. */
  lemma MergeOutcome(d: seq<Paper>, records: seq<Paper>)
    requires DistinctTitles(d) && DistinctTitles(records)
    ensures DistinctTitles(PutAll(d, records))
    ensures forall p :: p in records ==> p in PutAll(d, records)
    ensures forall t :: t in ToMap(d) && t !in ToMap(records) ==> t in ToMap(PutAll(d, records)) && ToMap(PutAll(d, records))[t] == ToMap(d)[t]
    ensures Doubles(d, records) == CountKnown(records, d)
  {
    MergeContents(d, records);
    DoublesCountKnownTitles(d, records);
    var merged := PutAll(d, records);
    forall p | p in records ensures p in merged {
      var k :| 0 <= k < |records| && records[k] == p;
      DictLookup(records, k);
      DictEntry(merged, p.title);
    }
  }
}
