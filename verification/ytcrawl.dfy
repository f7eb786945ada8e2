/**
 * ytscrape/ytcrawl.py: the tag-bracket extraction `extract`, `process`, and
 * the loop of `main` that filters the members of the crawl archive and
 * counts them.  Reading the archive, JSON decoding and HTML parsing are not
 * modelled: a member carries its text, and what `json.loads` and the
 * brag-bar parse make of the extracted sections are parameters.
 */
module YtCrawl {
  import opened Wrappers
  import opened Text

  /** What `main` lets escape: the `ValueError` of `extract`, a JSON decoding
      error, a failed `assert` in `process`, or a `TypeError` in `process`. */
  datatype CrawlError =
    | MissingEndTag(startTag: string, endTag: string)
    | DecodeError
    | AssertionError
    | TypeError

  /** `extract(buffer, start_tag, end_tag)`. */
  function Extract(buffer: string, startTag: string, endTag: string): (r: Result<string, CrawlError>)
    ensures r.Success? ==> IsStripped(r.value)
    ensures r.Failure? ==> r.error == MissingEndTag(startTag, endTag)
  {
    var start := Find(buffer, startTag, 0);
    if start < 0 then Success("")
    else
      var end := Find(buffer, endTag, start + |startTag|);
      if end < start then Failure(MissingEndTag(startTag, endTag))
      else Success(Strip(buffer[start + |startTag|..end]))
  }

  /** Without the start tag the result is empty. */
  lemma ExtractNoStart(buffer: string, startTag: string, endTag: string)
    requires !Contains(buffer, startTag)
    ensures Extract(buffer, startTag, endTag) == Success("")
  {
  }

  /** With the start tag first at `s` and no end tag at or after its end,
      `extract` raises. */
  lemma ExtractMissingEnd(buffer: string, startTag: string, endTag: string, s: nat)
    requires OccursAt(buffer, startTag, s)
    requires forall j :: 0 <= j < s ==> !OccursAt(buffer, startTag, j)
    requires forall j :: s + |startTag| <= j ==> !OccursAt(buffer, endTag, j)
    ensures Extract(buffer, startTag, endTag) == Failure(MissingEndTag(startTag, endTag))
  {
    FindIs(buffer, startTag, 0, s);
    FindNone(buffer, endTag, s + |startTag|);
    ExtractNoEnd(buffer, startTag, endTag, s, s + |startTag|);
  }

  /** `extract` once both searches are known, the second one failing. */
  lemma ExtractNoEnd(buffer: string, startTag: string, endTag: string, s: nat, from: nat)
    requires Find(buffer, startTag, 0) == s && from == s + |startTag|
    requires Find(buffer, endTag, from) == -1
    ensures Extract(buffer, startTag, endTag) == Failure(MissingEndTag(startTag, endTag))
  {
    var start := Find(buffer, startTag, 0);
    assert start + |startTag| == from;
  }

  /** With the start tag first at `s` and the end tag first at `e` after it,
      the result is the text in between, stripped. */
  lemma ExtractBetween(buffer: string, startTag: string, endTag: string, s: nat, e: nat)
    requires OccursAt(buffer, startTag, s)
    requires forall j :: 0 <= j < s ==> !OccursAt(buffer, startTag, j)
    requires s + |startTag| <= e && OccursAt(buffer, endTag, e)
    requires forall j :: s + |startTag| <= j < e ==> !OccursAt(buffer, endTag, j)
    ensures Extract(buffer, startTag, endTag) == Success(Strip(buffer[s + |startTag|..e]))
  {
    FindIs(buffer, startTag, 0, s);
    FindIs(buffer, endTag, s + |startTag|, e);
    ExtractFound(buffer, startTag, endTag, s, s + |startTag|, e, buffer[s + |startTag|..e]);
  }

  /** The result is the text between the tags with only whitespace cut
      from either end. */
  lemma ExtractSubstring(buffer: string, startTag: string, endTag: string, s: nat, e: nat)
    requires OccursAt(buffer, startTag, s)
    requires forall j :: 0 <= j < s ==> !OccursAt(buffer, startTag, j)
    requires s + |startTag| <= e && OccursAt(buffer, endTag, e)
    requires forall j :: s + |startTag| <= j < e ==> !OccursAt(buffer, endTag, j)
    ensures Extract(buffer, startTag, endTag).Success?
    ensures exists a, b :: AllSpace(a) && AllSpace(b)
                           && buffer[s + |startTag|..e] == a + Extract(buffer, startTag, endTag).value + b
  {
    ExtractBetween(buffer, startTag, endTag, s, e);
    var a, b := StripParts(buffer[s + |startTag|..e]);
  }

  /** `find` returns the first occurrence at or after `from`. */
  lemma FindIs(s: string, t: string, from: nat, r: nat)
    requires from <= r && OccursAt(s, t, r)
    requires forall j :: from <= j < r ==> !OccursAt(s, t, j)
    ensures Find(s, t, from) == r
  {
    FindSpec(s, t, from);
  }

  /** `find` returns -1 when there is no occurrence at or after `from`. */
  lemma FindNone(s: string, t: string, from: nat)
    requires forall j :: from <= j ==> !OccursAt(s, t, j)
    ensures Find(s, t, from) == -1
  {
    FindSpec(s, t, from);
  }

  /** `find` inside the middle part of a concatenation: an occurrence found
      there is found at the same place in the whole, shifted by the front. */
  lemma {:induction false} FindInside(x: string, y: string, z: string, t: string, k: nat)
    requires Find(y, t, k) != -1
    ensures Find(x + y + z, t, |x| + k) == |x| + Find(y, t, k)
    decreases |y| - k
  {
    assert (x + y + z)[|x| + k..|x| + k + |t|] == y[k..k + |t|];
    if y[k..k + |t|] != t {
      FindInside(x, y, z, t, k + 1);
    }
  }

  /** The first occurrence in the front part of a concatenation is the
      first in the whole. */
  lemma FindFront(head: string, mid: string, post: string, t: string)
    requires Find(head, t, 0) != -1
    ensures Find(head + mid + post, t, 0) == Find(head, t, 0)
  {
    FindInside([], head, mid + post, t, 0);
    assert [] + head + (mid + post) == head + mid + post;
  }

  /** A search from the start of the middle part finds what a search of the
      middle part alone finds. */
  lemma FindAfter(x: string, y: string, z: string, t: string)
    requires Find(y, t, 0) != -1
    ensures Find(x + y + z, t, |x|) == |x| + Find(y, t, 0)
  {
    FindInside(x, y, z, t, 0);
  }

  lemma MiddleSlice<T>(head: seq<T>, mid: seq<T>, post: seq<T>, n: nat)
    requires n <= |mid|
    ensures (head + mid + post)[|head|..|head| + n] == mid[..n]
  {
  }

  lemma Regroup5<T>(a: seq<T>, b: seq<T>, c: seq<T>, d: seq<T>, e: seq<T>)
    ensures a + b + c + d + e == (a + b) + (c + d) + e
  {
  }

  /** `extract` once both searches are known. */
  lemma ExtractFound(buffer: string, startTag: string, endTag: string, s: nat, from: nat, e: nat, inner: string)
    requires Find(buffer, startTag, 0) == s && from == s + |startTag|
    requires from <= e && Find(buffer, endTag, from) == e
    requires buffer[from..e] == inner
    ensures Extract(buffer, startTag, endTag).Success?
    ensures Extract(buffer, startTag, endTag).value == Strip(inner)
  {
    var start := Find(buffer, startTag, 0);
    assert start + |startTag| == from;
    var end := Find(buffer, endTag, start + |startTag|);
    assert end == e;
  }

  /** A buffer cut in three: the start tag ends the front part, the end tag
      is first found at `n` in the middle part. */
  lemma ExtractFramed(head: string, startTag: string, tail: string, endTag: string, post: string, n: nat)
    requires |startTag| <= |head| && Find(head, startTag, 0) == |head| - |startTag|
    requires Find(tail, endTag, 0) == n
    ensures Extract(head + tail + post, startTag, endTag).Success?
    ensures Extract(head + tail + post, startTag, endTag).value == Strip(tail[..n])
  {
    FindFront(head, tail, post, startTag);
    FindAfter(head, tail, post, endTag);
    MiddleSlice(head, tail, post, n);
    ExtractFound(head + tail + post, startTag, endTag, |head| - |startTag|, |head|, |head| + n, tail[..n]);
  }

  /** The round trip: a body wrapped in the tags, with the start tag first
      found right after `pre` and the end tag first found right after the
      body (no occurrence starts earlier, even one running into the tag
      itself), is extracted as the stripped body whatever follows. */
  lemma ExtractRoundTrip(pre: string, startTag: string, body: string, endTag: string, post: string)
    requires Find(pre + startTag, startTag, 0) == |pre|
    requires Find(body + endTag, endTag, 0) == |body|
    ensures Extract(pre + startTag + body + endTag + post, startTag, endTag).Success?
    ensures Extract(pre + startTag + body + endTag + post, startTag, endTag).value == Strip(body)
  {
    Regroup5(pre, startTag, body, endTag, post);
    ExtractFramed(pre + startTag, startTag, body + endTag, endTag, post, |body|);
    assert (body + endTag)[..|body|] == body;
  }

  // ---------------------------------------------------------------------
  // process

  const ErrorStart: string := "<error_message><![CDATA["
  const ErrorEnd: string := "]]></error_message>"
  const GraphStart: string := "<graph_data><![CDATA["
  const GraphEnd: string := "]]></graph_data>"
  const HtmlStart: string := "<html_content><![CDATA["
  const HtmlEnd: string := "]]></html_content>"

  /** What `json.loads` makes of a non-empty statistics text: an error, a
      falsy value (an empty object, say), a truthy object, or a truthy value
      of another type (a list, a number, a string), on which
      `daily_stats["YTID"] = ytid` raises `TypeError`. */
  datatype JsonVerdict = Invalid | Falsy | TruthyObject | TruthyOther

  /** `json.loads` on the extracted statistics.  The empty text, which
      `extract` returns when the graph tag is missing, never decodes. */
  function Decode(stats: string, decode: string -> JsonVerdict): JsonVerdict {
    if stats == "" then Invalid else decode(stats)
  }

  /** `process` on the text of a member.  It returns false when the crawl
      recorded an error message.  Otherwise the statistics must decode to a
      truthy value and the brag-bar HTML must be non-empty (the two
      `assert`s).  The brag-bar loop then raises `TypeError` when
      `classless` holds of the HTML: a `td`, or a `span` or `div` child of a
      `stats-bragbar` cell, has no `class` attribute, so `get('class')` is
      `None`.  Last, the statistics must be an object to take the "YTID"
      key.  `decode` stands for `json.loads` and `classless` for the
      BeautifulSoup parse. */
  function Process(data: string, decode: string -> JsonVerdict, classless: string -> bool): (r: Result<bool, CrawlError>)
    ensures r == Success(false) <==> Extract(data, ErrorStart, ErrorEnd).Success?
                                     && Extract(data, ErrorStart, ErrorEnd).value != ""
  {
    var errMsg :- Extract(data, ErrorStart, ErrorEnd);
    if errMsg != "" then Success(false)
    else
      var stats :- Extract(data, GraphStart, GraphEnd);
      var verdict := Decode(stats, decode);
      if verdict == Invalid then Failure(DecodeError)
      else
        var html :- Extract(data, HtmlStart, HtmlEnd);
        if verdict == Falsy || html == "" then Failure(AssertionError)
        else if classless(html) || verdict == TruthyOther then Failure(TypeError)
        else Success(true)
  }

  /** What `process` needs of a member with no error message to return
      True: statistics that decode to a truthy object, and a non-empty
      brag bar whose cells all carry a class. */
  predicate Accepted(data: string, decode: string -> JsonVerdict, classless: string -> bool) {
    && Extract(data, GraphStart, GraphEnd).Success?
    && Decode(Extract(data, GraphStart, GraphEnd).value, decode) == TruthyObject
    && Extract(data, HtmlStart, HtmlEnd).Success?
    && Extract(data, HtmlStart, HtmlEnd).value != ""
    && !classless(Extract(data, HtmlStart, HtmlEnd).value)
  }

  /** A member is processed exactly when there is no error message and it
      is accepted. */
  lemma ProcessTrue(data: string, decode: string -> JsonVerdict, classless: string -> bool)
    ensures Process(data, decode, classless) == Success(true) <==>
              Extract(data, ErrorStart, ErrorEnd) == Success("") && Accepted(data, decode, classless)
  {
    var e, g := Extract(data, ErrorStart, ErrorEnd), Extract(data, GraphStart, GraphEnd);
    if e.Success? && e.value == "" && g.Success? {
      var v, h := Decode(g.value, decode), Extract(data, HtmlStart, HtmlEnd);
      if v != Invalid && h.Success? {
        assert Process(data, decode, classless)
               == if v == Falsy || h.value == "" then Failure(AssertionError)
                  else if classless(h.value) || v == TruthyOther then Failure(TypeError)
                  else Success(true);
      }
    }
  }

  /** An exception escapes `process` exactly when the error-message tags are
      broken, or there is no error message and the member is not accepted. */
  lemma ProcessFails(data: string, decode: string -> JsonVerdict, classless: string -> bool)
    ensures Process(data, decode, classless).Failure? <==>
              || Extract(data, ErrorStart, ErrorEnd).Failure?
              || (Extract(data, ErrorStart, ErrorEnd) == Success("") && !Accepted(data, decode, classless))
  {
    ProcessTrue(data, decode, classless);
  }

  /** A page without the graph tag and without an error message makes
      `json.loads("")` raise. */
  lemma ProcessNoGraph(data: string, decode: string -> JsonVerdict, classless: string -> bool)
    requires Extract(data, ErrorStart, ErrorEnd) == Success("")
    requires !Contains(data, GraphStart)
    ensures Process(data, decode, classless) == Failure(DecodeError)
  {
    ExtractNoStart(data, GraphStart, GraphEnd);
  }

  // ---------------------------------------------------------------------
  // main

  /** A member of the archive: whether it is a regular file, its size, its
      path and its text. */
  datatype Member = Member(isFile: bool, size: int, name: string, data: string)

  const SkipNames: set<string> := {"key.done", "log"}
  const DataDir: string := "data/"

  /** The filter of the loop. */
  predicate Selected(m: Member) {
    m.isFile && m.size >= 1 && m.name !in SkipNames && Contains(m.name, DataDir)
  }

  /** "data/" does not occur in either skipped name. */
  lemma SkipNamesOutsideData(name: string)
    requires name in SkipNames
    ensures !Contains(name, DataDir)
  {
    forall i ensures !OccursAt(name, DataDir, i) {
      if 0 <= i && i + |DataDir| <= |name| {
        assert name == "key.done";
        assert name[i] != 'd';
        assert name[i..i + |DataDir|][0] != DataDir[0];
      }
    }
  }

  /** So the skip list changes nothing: the filter is file, non-empty,
      under "data/". */
  lemma SkipNamesRedundant(m: Member)
    ensures Selected(m) <==> m.isFile && m.size >= 1 && Contains(m.name, DataDir)
  {
    if m.name in SkipNames {
      SkipNamesOutsideData(m.name);
    }
  }

  /** The counters of `main`. */
  datatype Counts = Counts(count: nat, processed: nat)

  /** What the loop calls for a selected member: `process` on its text.
      The loop is stated for any such function; `ProcessWith` is the one
      the program uses. */
  type Processor = string -> Result<bool, CrawlError>

  /** `process` with `json.loads` and the brag-bar parse fixed. */
  function ProcessWith(decode: string -> JsonVerdict, classless: string -> bool): Processor {
    data => Process(data, decode, classless)
  }

  /** The number of members the filter lets through. */
  function CountSelected(ms: seq<Member>): (n: nat)
    ensures n <= |ms|
  {
    if ms == [] then 0
    else CountSelected(ms[..|ms| - 1]) + (if Selected(ms[|ms| - 1]) then 1 else 0)
  }

  /** The loop of `main` over the members, in archive order: the counters,
      or the first error that escapes `process`. */
  function Tally(ms: seq<Member>, process: Processor): (r: Result<Counts, CrawlError>)
    ensures r.Success? ==> r.value.processed <= r.value.count == CountSelected(ms)
  {
    if ms == [] then Success(Counts(0, 0))
    else
      var c :- Tally(ms[..|ms| - 1], process);
      Visit(c, ms[|ms| - 1], process)
  }

  /** One pass of the loop: skip, or count and process. */
  function Visit(c: Counts, m: Member, process: Processor): (r: Result<Counts, CrawlError>)
    ensures r.Success? ==> r.value.count == c.count + (if Selected(m) then 1 else 0)
                           && r.value.processed <= c.processed + (if Selected(m) then 1 else 0)
    ensures r.Failure? <==> Selected(m) && process(m.data).Failure?
  {
    if !Selected(m) then Success(c)
    else
      var ok :- process(m.data);
      Success(Counts(c.count + 1, if ok then c.processed + 1 else c.processed))
  }

  /** Once the loop has failed, later members change nothing. */
  lemma {:induction false} TallyFailureSticks(ms: seq<Member>, process: Processor, i: nat)
    requires i <= |ms| && Tally(ms[..i], process).Failure?
    ensures Tally(ms, process) == Tally(ms[..i], process)
    decreases |ms| - i
  {
    if i < |ms| {
      assert ms[..i + 1][..i] == ms[..i];
      TallyFailureSticks(ms, process, i + 1);
    } else {
      assert ms[..i] == ms;
    }
  }

  /** `main`'s loop. */
  method Crawl(ms: seq<Member>, process: Processor) returns (r: Result<Counts, CrawlError>)
    ensures r == Tally(ms, process)
  {
    var count, processed := 0, 0;
    for i := 0 to |ms|
      invariant Tally(ms[..i], process) == Success(Counts(count, processed))
    {
      assert ms[..i + 1][..i] == ms[..i];
      var m := ms[i];
      if !m.isFile || m.size < 1 {
        continue;
      }
      if m.name in SkipNames || !Contains(m.name, DataDir) {
        continue;
      }
      count := count + 1;
      var ok := process(m.data);
      if ok.Failure? {
        TallyFailureSticks(ms, process, i + 1);
        return Failure(ok.error);
      }
      if ok.value {
        processed := processed + 1;
      }
    }
    assert ms[..|ms|] == ms;
    r := Success(Counts(count, processed));
  }

  /** The members processed successfully, in order. */
  function CountProcessed(ms: seq<Member>, process: Processor): nat {
    if ms == [] then 0
    else
      var m := ms[|ms| - 1];
      CountProcessed(ms[..|ms| - 1], process)
      + (if Selected(m) && process(m.data) == Success(true) then 1 else 0)
  }

  /** Every selected member gets through `process`. */
  predicate AllProcessable(ms: seq<Member>, process: Processor) {
    forall i :: 0 <= i < |ms| && Selected(ms[i]) ==> process(ms[i].data).Success?
  }

  /** The loop succeeds exactly when every selected member gets through
      `process`, and then `processed` counts those it accepted. */
  lemma {:induction false} TallySucceeds(ms: seq<Member>, process: Processor)
    ensures Tally(ms, process).Success? <==> AllProcessable(ms, process)
    ensures Tally(ms, process).Success? ==> Tally(ms, process).value.processed == CountProcessed(ms, process)
  {
    if ms != [] {
      var n := |ms| - 1;
      var init := ms[..n];
      TallySucceeds(init, process);
      if AllProcessable(ms, process) {
        forall i | 0 <= i < n && Selected(init[i]) ensures process(init[i].data).Success? {
          assert init[i] == ms[i];
        }
      }
      if AllProcessable(init, process) && Visit(Tally(init, process).value, ms[n], process).Success? {
        forall i | 0 <= i < |ms| && Selected(ms[i]) ensures process(ms[i].data).Success? {
          if i < n {
            assert init[i] == ms[i];
          }
        }
      }
    }
  }

  /** When a selected member is the first to fail `process`, the loop fails
      with its error. */
  lemma {:induction false} TallyFirstError(ms: seq<Member>, process: Processor, i: nat)
    requires i < |ms| && Selected(ms[i]) && process(ms[i].data).Failure?
    requires AllProcessable(ms[..i], process)
    ensures Tally(ms, process) == Failure(process(ms[i].data).error)
  {
    var n := |ms| - 1;
    var init := ms[..n];
    if i < n {
      assert init[..i] == ms[..i] && init[i] == ms[i];
      TallyFirstError(init, process, i);
    } else {
      assert init == ms[..i];
      TallySucceeds(init, process);
    }
  }

  /** `processed <= count <= i` after `i` members, whatever the archive. */
  lemma ProcessedBounded(ms: seq<Member>, process: Processor, i: nat)
    requires i <= |ms| && Tally(ms[..i], process).Success?
    ensures Tally(ms[..i], process).value.processed <= Tally(ms[..i], process).value.count <= i
  {
  }

  // ---------------------------------------------------------------------
  // The loop with the program's `process`

  /** The selected members whose page records no error message. */
  function CountClean(ms: seq<Member>): (n: nat)
    ensures n <= CountSelected(ms)
  {
    if ms == [] then 0
    else
      var m := ms[|ms| - 1];
      CountClean(ms[..|ms| - 1])
      + (if Selected(m) && Extract(m.data, ErrorStart, ErrorEnd) == Success("") then 1 else 0)
  }

  /** When every selected member gets through `process`, the ones it
      accepts are exactly those without an error message. */
  lemma {:induction false} ProcessedAreClean(ms: seq<Member>, decode: string -> JsonVerdict, classless: string -> bool)
    requires AllProcessable(ms, ProcessWith(decode, classless))
    ensures CountProcessed(ms, ProcessWith(decode, classless)) == CountClean(ms)
  {
    if ms != [] {
      var p := ProcessWith(decode, classless);
      var n := |ms| - 1;
      var init, m := ms[..n], ms[n];
      forall i | 0 <= i < n && Selected(init[i]) ensures p(init[i].data).Success? {
        assert init[i] == ms[i];
      }
      ProcessedAreClean(init, decode, classless);
      if Selected(m) {
        assert p(m.data) == Process(m.data, decode, classless);
        ProcessFails(m.data, decode, classless);
        ProcessTrue(m.data, decode, classless);
      }
    }
  }

  /** `main`'s loop as the program runs it: it completes exactly when every
      selected member has well-formed error-message tags and, when it
      records no error message, is accepted; then `count` is the number of
      selected members and `processed` the number of those without an error
      message. */
  lemma CrawlOutcome(ms: seq<Member>, decode: string -> JsonVerdict, classless: string -> bool)
    ensures Tally(ms, ProcessWith(decode, classless)).Success? <==>
              forall i :: 0 <= i < |ms| && Selected(ms[i]) ==>
                && Extract(ms[i].data, ErrorStart, ErrorEnd).Success?
                && (Extract(ms[i].data, ErrorStart, ErrorEnd).value == "" ==> Accepted(ms[i].data, decode, classless))
    ensures Tally(ms, ProcessWith(decode, classless)).Success? ==>
              Tally(ms, ProcessWith(decode, classless)).value == Counts(CountSelected(ms), CountClean(ms))
  {
    var p := ProcessWith(decode, classless);
    TallySucceeds(ms, p);
    forall i | 0 <= i < |ms| && Selected(ms[i])
      ensures p(ms[i].data).Success? <==>
                && Extract(ms[i].data, ErrorStart, ErrorEnd).Success?
                && (Extract(ms[i].data, ErrorStart, ErrorEnd).value == "" ==> Accepted(ms[i].data, decode, classless))
    {
      ProcessFails(ms[i].data, decode, classless);
    }
    if AllProcessable(ms, p) {
      ProcessedAreClean(ms, decode, classless);
    }
  }
}
