/**
 * `parse_plain_body`: a forward scan over the lines of a plain-text alert.
 * A line that is non-empty, not noise, starts (once stripped) with an
 * angle-bracketed URL and does not mention a patent becomes a record; its
 * link is the unwrapped URL and its title the three raw lines before it,
 * taken with Python's negative-index wrap-around.
 */
module PlainBody {
  import opened PyStr
  import opened Filters
  import opened Papers

  /** The redirect prefix the alert wraps every plain-text link in. */
  const RedirectPrefix := "http://scholar.google.de/scholar_url?url="

  /** The redirect prefix and the angle brackets come off a link, in this order. */
  const Unwrap: seq<Substitution> := [Sub(RedirectPrefix, ""), Sub("<", ""), Sub(">", "")]

  /** `strip("[PDF]")` and `strip("[HTML]")` trim these character sets, not the tokens. */
  const PdfMarkerChars: set<char> := {'[', 'P', 'D', 'F', ']'}
  const HtmlMarkerChars: set<char> := {'[', 'H', 'T', 'M', 'L', ']'}

  /** The strip chain of check_email.py:66-67: `.strip().strip("[PDF]").strip()` and then
      `.strip().strip("[HTML]").strip()`. */
  const TitleStrips: seq<set<char>> :=
    [Whitespace, PdfMarkerChars, Whitespace, Whitespace, HtmlMarkerChars, Whitespace]

  /** A line the scan turns into a record (or an IndexError): non-empty, not noise,
      an angle-bracketed URL once stripped, and no patent. */
  predicate IsLinkLine(line: string) {
    && line != ""
    && !CheckBlacklist(line)
    && StartsWith(Strip(line), "<htt")
    && !Contains(Strip(line), "patent")
  }

  /** The link before the `&hl` cut: redirect prefix and angle brackets removed,
      cut before the first `.pdf`, and `.pdf` appended whether or not it was there. */
  function RawLink(l: string): string {
    Before(ReplaceAll(l, Unwrap), ".pdf") + ".pdf"
  }

  /** Appending `.pdf` to text without `.pdf` gives exactly one occurrence, at the end:
      `.pdf` cannot overlap itself. */
  lemma {:induction false} PdfAppendedOnce(head: string)
    requires !Contains(head, ".pdf")
    ensures forall j :: OccursAt(head + ".pdf", ".pdf", j) ==> j == |head|
  {
    var r := head + ".pdf";
    forall j | 0 <= j < |head| ensures !OccursAt(r, ".pdf", j) {
      if j + 4 <= |head| {
        assert r[j..j + 4] == head[j..j + 4];
        assert !OccursAt(head, ".pdf", j);
      } else {
        assert r[j..j + 4][|head| - j] == r[|head|] == '.';
      }
    }
  }

  /** After the redirect prefix is gone, the rest of the chain deletes both brackets. */
  lemma UnwrapTailDropsBrackets(u: string)
    ensures '<' !in ReplaceAll(u, Unwrap[1..]) && '>' !in ReplaceAll(u, Unwrap[1..])
  {
    var noOpen := Replace(u, "<", "");
    var noBrackets := Replace(noOpen, ">", "");
    assert ReplaceAll(u, Unwrap[1..]) == ReplaceAll(noOpen, Unwrap[2..]);
    assert ReplaceAll(noOpen, Unwrap[2..]) == noBrackets;
    ReplaceDeletesChar(u, '<');
    ReplaceChars(noOpen, ">", "");
    ReplaceDeletesChar(noOpen, '>');
  }

  /** Unwrapping leaves no angle bracket behind. */
  lemma UnwrapDropsBrackets(l: string)
    ensures '<' !in ReplaceAll(l, Unwrap) && '>' !in ReplaceAll(l, Unwrap)
  {
    var u := Replace(l, RedirectPrefix, "");
    assert ReplaceAll(l, Unwrap) == ReplaceAll(u, Unwrap[1..]);
    UnwrapTailDropsBrackets(u);
  }

  /** The cut of `RawLink` sits at the first `.pdf` of `unwrapped`, or takes all of it. */
  lemma PdfCut(unwrapped: string, link: string)
    requires link == Before(unwrapped, ".pdf") + ".pdf"
    ensures Contains(unwrapped, ".pdf") ==> OccursAt(unwrapped, ".pdf", |link| - 4)
    ensures !Contains(unwrapped, ".pdf") ==> link == unwrapped + ".pdf"
  {
  }

  /** Before the cut the link is the unwrapped line up to its first `.pdf`, followed by
      `.pdf`: it has no angle brackets and ends with the one and only `.pdf`. */
  lemma RawLinkShape(l: string)
    ensures '<' !in RawLink(l) && '>' !in RawLink(l)
    ensures EndsWith(RawLink(l), ".pdf")
    ensures forall j :: OccursAt(RawLink(l), ".pdf", j) ==> j == |RawLink(l)| - 4
    ensures StartsWith(ReplaceAll(l, Unwrap), RawLink(l)[..|RawLink(l)| - 4])
    ensures Contains(ReplaceAll(l, Unwrap), ".pdf") ==> OccursAt(ReplaceAll(l, Unwrap), ".pdf", |RawLink(l)| - 4)
    ensures !Contains(ReplaceAll(l, Unwrap), ".pdf") ==> RawLink(l) == ReplaceAll(l, Unwrap) + ".pdf"
  {
    var unwrapped := ReplaceAll(l, Unwrap);
    UnwrapDropsBrackets(l);
    var head := Before(unwrapped, ".pdf");
    assert forall c :: c in head ==> c in unwrapped by {
      assert head == unwrapped[..|head|];
    }
    PdfAppendedOnce(head);
    assert RawLink(l) == head + ".pdf";
    PdfCut(unwrapped, RawLink(l));
    assert RawLink(l)[..|RawLink(l)| - 4] == head;
  }

  /** check_email.py:62-64: the plain-text link: the raw link up to its first `&hl`, or all
      of it when it has none. */
  function PlainLink(l: string): (r: string)
    ensures !Contains(r, "&hl")
    ensures StartsWith(RawLink(l), r)
    ensures Contains(RawLink(l), "&hl") ==> OccursAt(RawLink(l), "&hl", |r|)
    ensures !Contains(RawLink(l), "&hl") ==> r == RawLink(l)
  {
    var link := RawLink(l);
    if Contains(link, "&hl") then Before(link, "&hl") else link
  }

  /** check_email.py:66-67: whitespace and the `[PDF]` then `[HTML]` character sets trimmed off.
      The title has no surrounding whitespace. */
  function TrimTitle(t: string): (r: string)
    ensures |r| > 0 ==> r[0] !in Whitespace && r[|r| - 1] !in Whitespace
  {
    StripAll(t, TitleStrips)
  }

  /** The title is an infix of the three joined lines: trimming only removes. */
  lemma TrimTitleInfix(t: string)
    ensures Contains(t, TrimTitle(t))
  {
    StripAllInfix(t, TitleStrips);
  }

  /** Python's `msg[j]`: negative indices count from the end; out of range raises. */
  function PyIndex(msg: seq<string>, j: int): (r: Option<string>)
    ensures r.Some? <==> -|msg| <= j < |msg|
    ensures 0 <= j < |msg| ==> r == Some(msg[j])
    ensures -|msg| <= j < 0 ==> r == Some(msg[|msg| + j])
  {
    if 0 <= j < |msg| then Some(msg[j])
    else if -|msg| <= j < 0 then Some(msg[|msg| + j])
    else None
  }

  /** check_email.py:65-67: the title of a link line at index `i`, from the raw lines `i-3`, `i-2`
      and `i-1` (blank and noise lines included); IndexError (None) when `msg[i-3]`
      lies before the start of the body. */
  function PlainTitle(msg: seq<string>, i: nat): (r: Option<string>)
    requires i < |msg|
    ensures r.Some? <==> i + |msg| >= 3
  {
    var a, b, c := PyIndex(msg, i - 3), PyIndex(msg, i - 2), PyIndex(msg, i - 1);
    if a.Some? && b.Some? && c.Some? then
      Some(TrimTitle(Strip(a.value) + " " + Strip(b.value) + " " + Strip(c.value)))
    else
      None
  }

  /** The lines a title is made of: the three before the link line, or, at the top of
      the body, lines wrapped around from its end. */
  lemma PlainTitleWindow(msg: seq<string>, i: nat)
    requires i < |msg|
    ensures i >= 3 ==>
      PlainTitle(msg, i) == Some(TrimTitle(Strip(msg[i - 3]) + " " + Strip(msg[i - 2]) + " " + Strip(msg[i - 1])))
    ensures i == 0 && |msg| >= 3 ==>
      PlainTitle(msg, i) == Some(TrimTitle(Strip(msg[|msg| - 3]) + " " + Strip(msg[|msg| - 2]) + " " + Strip(msg[|msg| - 1])))
  {
    if i >= 3 {
      assert PyIndex(msg, i - 3) == Some(msg[i - 3]);
      assert PyIndex(msg, i - 2) == Some(msg[i - 2]);
      assert PyIndex(msg, i - 1) == Some(msg[i - 1]);
    } else if i == 0 && |msg| >= 3 {
      assert PyIndex(msg, -3) == Some(msg[|msg| - 3]);
      assert PyIndex(msg, -2) == Some(msg[|msg| - 2]);
      assert PyIndex(msg, -1) == Some(msg[|msg| - 1]);
    }
  }

  /** One iteration of the scan at line `i`: no record, one record, or IndexError.
      A record (or the error) comes exactly from the link lines, and the error only
      from a link line whose `msg[i-3]` lies before the start of the body. */
  function LineRecord(msg: seq<string>, i: nat): (r: Result<Option<Paper>>)
    requires i < |msg|
    ensures r == Ok(None) <==> !IsLinkLine(msg[i])
    ensures r.IndexError? <==> IsLinkLine(msg[i]) && i + |msg| < 3
  {
    var line := msg[i];
    if line == "" then Ok(None)
    else if CheckBlacklist(line) then Ok(None)
    else
      var l := Strip(line);
      if !StartsWith(l, "<htt") then Ok(None)
      else if Contains(l, "patent") then Ok(None)
      else
        match PlainTitle(msg, i)
        case None => IndexError
        case Some(title) => Ok(Some(Paper(title, PlainLink(l))))
  }


  /** `[f(i), f(i + 1), ..., f(n - 1)]` */
  function Tabulate<T>(f: nat -> T, i: nat, n: nat): (r: seq<T>)
    requires i <= n
    ensures |r| == n - i
    decreases n - i
  {
    if i == n then [] else [f(i)] + Tabulate(f, i + 1, n)
  }

  lemma {:induction false} TabulateAt<T>(f: nat -> T, i: nat, n: nat, k: nat)
    requires i <= k < n
    ensures Tabulate(f, i, n)[k - i] == f(k)
    decreases k - i
  {
    if i < k {
      TabulateAt(f, i + 1, n, k);
    }
  }

  /** The outcome of every line of the body, in line order. */
  function Outcomes(msg: seq<string>): (outs: seq<Result<Option<Paper>>>)
    ensures |outs| == |msg|
  {
    Tabulate((j: nat) => if j < |msg| then LineRecord(msg, j) else Ok(None), 0, |msg|)
  }

  /** Entry `k` of the outcomes is the outcome of line `k`. */
  lemma OutcomeAt(msg: seq<string>, k: nat)
    requires k < |msg|
    ensures Outcomes(msg)[k] == LineRecord(msg, k)
  {
    TabulateAt((j: nat) => if j < |msg| then LineRecord(msg, j) else Ok(None), 0, |msg|, k);
  }

  /** The scan over line outcomes from index `i` on: the records in order, or the first
      IndexError, which ends the scan. */
  function Collect(outs: seq<Result<Option<Paper>>>, i: nat): Result<seq<Paper>>
    requires i <= |outs|
    decreases |outs| - i
  {
    if i == |outs| then Ok([])
    else
      match outs[i]
      case IndexError => IndexError
      case Ok(None) => Collect(outs, i + 1)
      case Ok(Some(p)) => Prepend([p], Collect(outs, i + 1))
  }

  /** What `parse_plain_body` returns: the dict built from the records in line order. */
  function PlainRecords(msg: seq<string>): Result<seq<Paper>> {
    match Collect(Outcomes(msg), 0)
    case Ok(ps) => Ok(FromPairs(ps))
    case IndexError => IndexError
  }

  /** One pass of the loop body of `parse_plain_body` (check_email.py:49-68), written as the
      source writes it, with its `continue`s as early returns; its ensures ties it to
      `LineRecord`, the specification the lemmas below reason about. */
  method ScanLine(msg: seq<string>, i: nat) returns (o: Result<Option<Paper>>)
    requires i < |msg|
    ensures o == LineRecord(msg, i)
  {
    if msg[i] == "" {
      return Ok(None);
    }
    if CheckBlacklist(msg[i]) {
      return Ok(None);
    }
    var l := Strip(msg[i]);
    if !StartsWith(l, "<htt") {
      return Ok(None);
    }
    if Contains(l, "patent") {
      return Ok(None);
    }
    var link := RawLink(l);
    if Contains(link, "&hl") {
      link := Before(link, "&hl");
    }
    var title := PlainTitle(msg, i);
    if title.None? {
      return IndexError;
    }
    return Ok(Some(Paper(title.value, link)));
  }

  /** `parse_plain_body` over the body's lines. */
  method ParsePlainBody(msg: seq<string>) returns (r: Result<seq<Paper>>)
    ensures r == PlainRecords(msg)
  {
    var ret: seq<Paper> := [];
    ghost var outs := Outcomes(msg);
    ghost var done: seq<Paper> := [];
    PrependNil(Collect(outs, 0));
    for i := 0 to |msg|
      invariant Collect(outs, 0) == Prepend(done, Collect(outs, i))
      invariant ret == FromPairs(done)
    {
      OutcomeAt(msg, i);
      var o := ScanLine(msg, i);
      if o.IndexError? {
        assert Collect(outs, 0) == IndexError;
        return IndexError;
      }
      if o.value.None? {
        continue;
      }
      var p := o.value.value;
      PrependPrepend(done, [p], Collect(outs, i + 1));
      PutAllSnoc([], done, p);
      ret := Put(ret, p);
      done := done + [p];
    }
    assert Collect(outs, |outs|) == Ok([]);
    assert done + [] == done;
    assert Collect(outs, 0) == Ok(done);
    return Ok(ret);
  }

  /** The scan raises exactly when some outcome from `i` on is an IndexError. */
  lemma {:induction false} CollectRaise(outs: seq<Result<Option<Paper>>>, i: nat)
    requires i <= |outs|
    ensures Collect(outs, i).IndexError? <==> exists j :: i <= j < |outs| && outs[j].IndexError?
    decreases |outs| - i
  {
    if i < |outs| {
      CollectRaise(outs, i + 1);
    }
  }

  /** The records collected from `i` on are exactly the records among the outcomes. */
  lemma {:induction false} CollectMembers(outs: seq<Result<Option<Paper>>>, i: nat, ps: seq<Paper>)
    requires i <= |outs| && Collect(outs, i) == Ok(ps)
    ensures forall p :: p in ps <==> exists j :: i <= j < |outs| && outs[j] == Ok(Some(p))
    decreases |outs| - i
  {
    if i < |outs| {
      match outs[i]
      case Ok(None) =>
        CollectMembers(outs, i + 1, ps);
      case Ok(Some(p)) =>
        var rest := ps[1..];
        assert Collect(outs, i + 1) == Ok(rest);
        CollectMembers(outs, i + 1, rest);
        assert ps == [p] + rest;
    }
  }

  /** Outcomes without records collect to nothing. */
  lemma {:induction false} CollectNothing(outs: seq<Result<Option<Paper>>>, i: nat)
    requires i <= |outs|
    requires forall j :: i <= j < |outs| ==> outs[j] == Ok(None)
    ensures Collect(outs, i) == Ok([])
    decreases |outs| - i
  {
    if i < |outs| {
      CollectNothing(outs, i + 1);
    }
  }

  /** Outcome `j` is a record titled `t`. */
  predicate TitledAt(outs: seq<Result<Option<Paper>>>, j: nat, t: string)
    requires j < |outs|
  {
    outs[j].Ok? && outs[j].value.Some? && outs[j].value.value.title == t
  }

  /** A record that no later record retitles is in the collected mapping with its link. */
  lemma {:induction false} CollectLastWins(outs: seq<Result<Option<Paper>>>, i: nat, ps: seq<Paper>, j: nat, p: Paper)
    requires i <= j < |outs| && Collect(outs, i) == Ok(ps)
    requires outs[j] == Ok(Some(p))
    requires forall k :: j < k < |outs| ==> !TitledAt(outs, k, p.title)
    ensures p.title in ToMap(ps) && ToMap(ps)[p.title] == p.link
    decreases |outs| - i
  {
    match outs[i]
    case Ok(None) =>
      CollectLastWins(outs, i + 1, ps, j, p);
    case Ok(Some(q)) =>
      var rest := ps[1..];
      assert Collect(outs, i + 1) == Ok(rest);
      assert ps == [q] + rest;
      if i == j {
        CollectMembers(outs, i + 1, rest);
        assert p.title !in Titles(rest) by {
          forall k | 0 <= k < |rest| ensures rest[k].title != p.title {
            assert rest[k] in rest;
            var at :| i + 1 <= at < |outs| && outs[at] == Ok(Some(rest[k]));
            assert !TitledAt(outs, at, p.title);
          }
        }
      } else {
        CollectLastWins(outs, i + 1, rest, j, p);
      }
  }

  /** `parse_plain_body` raises IndexError exactly for a body of one or two lines whose
      first line is a link line; every other body yields a dict. */
  lemma PlainBodyRaisesIff(msg: seq<string>)
    ensures PlainRecords(msg).IndexError? <==> 0 < |msg| <= 2 && IsLinkLine(msg[0])
  {
    var outs := Outcomes(msg);
    CollectRaise(outs, 0);
    if exists j :: 0 <= j < |outs| && outs[j].IndexError? {
      var j :| 0 <= j < |outs| && outs[j].IndexError?;
      OutcomeAt(msg, j);
    }
    if 0 < |msg| <= 2 && IsLinkLine(msg[0]) {
      OutcomeAt(msg, 0);
      assert outs[0].IndexError?;
    }
  }

  /** A body without link lines parses to the empty dict. */
  lemma PlainBodyWithoutLinks(msg: seq<string>)
    requires forall j :: 0 <= j < |msg| ==> !IsLinkLine(msg[j])
    ensures PlainRecords(msg) == Ok([])
  {
    var outs := Outcomes(msg);
    forall j | 0 <= j < |outs| ensures outs[j] == Ok(None) {
      OutcomeAt(msg, j);
    }
    CollectNothing(outs, 0);
  }

  /** Line `j` yields a record titled `t`. */
  predicate RecordTitled(msg: seq<string>, j: nat, t: string)
    requires j < |msg|
  {
    TitledAt(Outcomes(msg), j, t)
  }

  /** Last write wins: a title maps to the link of the last link line carrying it. */
  lemma PlainLastLineWins(msg: seq<string>, j: nat, p: Paper)
    requires j < |msg| && PlainRecords(msg).Ok?
    requires LineRecord(msg, j) == Ok(Some(p))
    requires forall k :: j < k < |msg| ==> !RecordTitled(msg, k, p.title)
    ensures p.title in ToMap(PlainRecords(msg).value)
    ensures ToMap(PlainRecords(msg).value)[p.title] == p.link
  {
    var outs := Outcomes(msg);
    var ps := Collect(outs, 0).value;
    OutcomeAt(msg, j);
    forall k | j < k < |outs| ensures !TitledAt(outs, k, p.title) {
      assert !RecordTitled(msg, k, p.title);
    }
    CollectLastWins(outs, 0, ps, j, p);
    MergeContents([], ps);
  }

  /** The dict built from the collected records has distinct titles, and its keys are
      exactly the titles of the records among the outcomes. */
  lemma CollectKeys(outs: seq<Result<Option<Paper>>>, ps: seq<Paper>)
    requires Collect(outs, 0) == Ok(ps)
    ensures DistinctTitles(FromPairs(ps))
    ensures forall t :: t in ToMap(FromPairs(ps)) <==> exists j :: 0 <= j < |outs| && TitledAt(outs, j, t)
  {
    FromPairsKeys(ps);
    CollectTitles(outs, ps);
  }

  /** The titles of the collected records are those of the records among the outcomes. */
  lemma CollectTitles(outs: seq<Result<Option<Paper>>>, ps: seq<Paper>)
    requires Collect(outs, 0) == Ok(ps)
    ensures forall t :: t in Titles(ps) <==> exists j :: 0 <= j < |outs| && TitledAt(outs, j, t)
  {
    CollectMembers(outs, 0, ps);
    forall t | t in Titles(ps) ensures exists j :: 0 <= j < |outs| && TitledAt(outs, j, t) {
      var k :| 0 <= k < |ps| && Titles(ps)[k] == t;
      assert ps[k] in ps;
      var j :| 0 <= j < |outs| && outs[j] == Ok(Some(ps[k]));
      assert TitledAt(outs, j, t);
    }
    forall t | exists j :: 0 <= j < |outs| && TitledAt(outs, j, t) ensures t in Titles(ps) {
      var j :| 0 <= j < |outs| && TitledAt(outs, j, t);
      var p := outs[j].value.value;
      assert p in ps;
      var k :| 0 <= k < |ps| && ps[k] == p;
      assert Titles(ps)[k] == t;
    }
  }

  /** The parsed dict has distinct titles, and its keys are exactly the titles of the
      records of the link lines. */
  lemma PlainBodyKeys(msg: seq<string>)
    requires PlainRecords(msg).Ok?
    ensures DistinctTitles(PlainRecords(msg).value)
    ensures forall t :: t in ToMap(PlainRecords(msg).value) <==> exists j :: 0 <= j < |msg| && RecordTitled(msg, j, t)
  {
    var outs := Outcomes(msg);
    var ps := Collect(outs, 0).value;
    CollectKeys(outs, ps);
    forall t | t in ToMap(FromPairs(ps)) ensures exists j :: 0 <= j < |msg| && RecordTitled(msg, j, t) {
      var j :| 0 <= j < |outs| && TitledAt(outs, j, t);
      assert RecordTitled(msg, j, t);
    }
    forall t | exists j :: 0 <= j < |msg| && RecordTitled(msg, j, t) ensures t in ToMap(FromPairs(ps)) {
      var j :| 0 <= j < |msg| && RecordTitled(msg, j, t);
      assert TitledAt(outs, j, t);
    }
  }
}
