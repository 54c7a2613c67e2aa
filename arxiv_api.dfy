/** src/arxiv_api.py: the older copy of the call throttle (`_throttle`), the
    query URL that `ArXiv.query` requests, and the way `ArXiv.search_query`
    turns each Atom `<entry>` into a paper record, with its defaults for
    missing fields. The HTTP request and the XML and date parsing are not
    modelled: an entry arrives as the optional texts of its child elements. */
module ArxivApi {
  import Throttle

  datatype Option<T> = None | Some(value: T)

  // ---------------------------------------------------------------------
  // `_throttle`, as written

  /** The argument `_throttle` passes to `time.sleep` for a call of `name`
      at `now`: none when the name has no deadline yet, otherwise the
      deadline minus `now`, with no check of its sign. */
  function LegacySleep(funcs: map<string, real>, name: string, now: real): (s: Option<real>)
    ensures s.None? <==> name !in funcs
    ensures s.Some? ==> now + s.value == funcs[name]
  {
    if name in funcs then Some(funcs[name] - now) else None
  }

  /** `time.sleep` raises on a negative duration (IOError in Python 2,
      ValueError in Python 3), before the wrapped function runs. */
  predicate SleepRaises(s: Option<real>)
  {
    s.Some? && s.value < 0.0
  }

  /** The `funcs` attribute of `_throttle`: a dictionary of its own, apart
      from the one of `throttle.throttle`. */
  class LegacyRegistry {
    var funcs: map<string, real>

    constructor ()
      ensures funcs == map[]
    {
      funcs := map[];
    }

    /** One call through `_throttle`, as written: the sleep fails once the
        deadline has passed, and then nothing runs and nothing is recorded. */
    method Call<R>(name: string, delayS: real, now: real, outcome: Throttle.Outcome<R>, finishedAt: real)
      returns (slept: real, result: Throttle.Outcome<R>)
      modifies this
      ensures SleepRaises(LegacySleep(old(funcs), name, now)) ==>
                slept == 0.0 && result == Throttle.Raised && funcs == old(funcs)
      ensures !SleepRaises(LegacySleep(old(funcs), name, now)) ==>
                && slept == (if name in old(funcs) then old(funcs)[name] - now else 0.0)
                && result == outcome
                && funcs == Throttle.Record(old(funcs), name, delayS, outcome, finishedAt)
    {
      slept := 0.0;
      if name in funcs {
        var s := funcs[name] - now;
        if s < 0.0 {
          result := Throttle.Raised;
          return;
        }
        slept := s;
      }
      result := outcome;
      if outcome.Returned? {
        funcs := funcs[name := finishedAt + delayS];
      }
    }
  }

  /** Once the recorded deadline of `name` has passed, every call of it
      through `_throttle` fails in `time.sleep`, at that time and at any
      later time, since a failed call records no new deadline; the guarded
      sleep of src/throttle.py sleeps zero seconds instead. */
  lemma LegacyStuckAfterDeadline(funcs: map<string, real>, name: string, now: real, later: real)
    requires name in funcs && funcs[name] < now <= later
    ensures SleepRaises(LegacySleep(funcs, name, now))
    ensures SleepRaises(LegacySleep(funcs, name, later))
    ensures Throttle.SleepFor(funcs, name, now) == 0.0
  {
  }

  /** The second `query` made more than the two-second delay after the first
      one returned fails. */
  lemma LegacySecondQueryFails()
    ensures var after := Throttle.Record(map[], "query", 2.0, Throttle.Returned(0), 100.0);
            && LegacySleep(after, "query", 106.0) == Some(-4.0)
            && SleepRaises(LegacySleep(after, "query", 106.0))
            && Throttle.SleepFor(after, "query", 106.0) == 0.0
  {
  }

  /** Where the sleep does not fail, `_throttle` sleeps exactly as the
      guarded throttle does. */
  lemma LegacyAgreesBeforeDeadline(funcs: map<string, real>, name: string, now: real)
    requires !SleepRaises(LegacySleep(funcs, name, now))
    ensures Throttle.SleepFor(funcs, name, now) == if name in funcs then funcs[name] - now else 0.0
  {
  }

  // ---------------------------------------------------------------------
  // Strings split on one character

  /** `c.join(xs)` */
  function JoinWith(xs: seq<string>, c: char): string
  {
    if |xs| == 0 then "" else if |xs| == 1 then xs[0] else xs[0] + [c] + JoinWith(xs[1..], c)
  }

  /** `s.split(c)` */
  function SplitOn(s: string, c: char): (r: seq<string>)
    ensures |r| >= 1
    ensures forall k :: 0 <= k < |r| ==> c !in r[k]
  {
    if s == [] then [""]
    else if s[0] == c then [""] + SplitOn(s[1..], c)
    else
      var rest := SplitOn(s[1..], c);
      [[s[0]] + rest[0]] + rest[1..]
  }

  /** The text before the first `c` and the text after it, if `c` occurs. */
  function SplitFirst(s: string, c: char): (r: Option<(string, string)>)
    ensures r.None? <==> c !in s
    ensures r.Some? ==> s == r.value.0 + [c] + r.value.1 && c !in r.value.0
  {
    if s == [] then None
    else if s[0] == c then Some(("", s[1..]))
    else match SplitFirst(s[1..], c)
      case None => None
      case Some(p) => Some(([s[0]] + p.0, p.1))
  }

  lemma {:induction false} SplitFirstAt(a: string, b: string, c: char)
    requires c !in a
    ensures SplitFirst(a + [c] + b, c) == Some((a, b))
  {
    if a == [] {
      assert (a + [c] + b)[1..] == b;
    } else {
      assert (a + [c] + b)[1..] == a[1..] + [c] + b;
      SplitFirstAt(a[1..], b, c);
      assert a == [a[0]] + a[1..];
    }
  }

  lemma {:induction false} SplitOnAfterPiece(a: string, b: string, c: char)
    requires c !in a
    ensures SplitOn(a + [c] + b, c) == [a] + SplitOn(b, c)
  {
    if a == [] {
      assert (a + [c] + b)[1..] == b;
    } else {
      assert (a + [c] + b)[1..] == a[1..] + [c] + b;
      SplitOnAfterPiece(a[1..], b, c);
      assert a == [a[0]] + a[1..];
    }
  }

  lemma {:induction false} SplitOnNoSep(a: string, c: char)
    requires c !in a
    ensures SplitOn(a, c) == [a]
  {
    if a != [] {
      SplitOnNoSep(a[1..], c);
      assert a == [a[0]] + a[1..];
    }
  }

  /** Splitting undoes joining when there is at least one piece and no piece
      holds the separator. */
  lemma {:induction false} SplitOnJoin(xs: seq<string>, c: char)
    requires |xs| > 0
    requires forall k :: 0 <= k < |xs| ==> c !in xs[k]
    ensures SplitOn(JoinWith(xs, c), c) == xs
  {
    if |xs| == 1 {
      SplitOnNoSep(xs[0], c);
    } else {
      SplitOnJoin(xs[1..], c);
      SplitOnAfterPiece(xs[0], JoinWith(xs[1..], c), c);
      assert xs == [xs[0]] + xs[1..];
    }
  }

  // ---------------------------------------------------------------------
  // The query dictionary and the query URL

  /** The options dictionary, as key/value pairs in iteration order. */
  type Options = seq<(string, string)>

  function Lookup(d: Options, k: string): Option<string>
  {
    if d == [] then None else if d[0].0 == k then Some(d[0].1) else Lookup(d[1..], k)
  }

  predicate DistinctKeys(d: Options)
  {
    forall i, j :: 0 <= i < j < |d| ==> d[i].0 != d[j].0
  }

  lemma {:induction false} LookupNone(d: Options, k: string)
    ensures Lookup(d, k).None? <==> forall i :: 0 <= i < |d| ==> d[i].0 != k
  {
    if d != [] {
      LookupNone(d[1..], k);
      assert forall i :: 1 <= i < |d| ==> d[i] == d[1..][i - 1];
    }
  }

  /** `d[k] = v`: replaces the value in place, or appends a new key. */
  function SetOption(d: Options, k: string, v: string): (r: Options)
    ensures Lookup(r, k) == Some(v)
    ensures forall k' :: k' != k ==> Lookup(r, k') == Lookup(d, k')
  {
    if d == [] then [(k, v)]
    else if d[0].0 == k then [(k, v)] + d[1..]
    else [d[0]] + SetOption(d[1..], k, v)
  }

  /** Setting a key keeps the keys of a dictionary distinct. */
  lemma {:induction false} SetOptionDistinct(d: Options, k: string, v: string)
    requires DistinctKeys(d)
    ensures DistinctKeys(SetOption(d, k, v))
  {
    var r := SetOption(d, k, v);
    if d == [] {
    } else if d[0].0 == k {
      assert forall i :: 1 <= i < |r| ==> r[i] == d[i];
    } else {
      var tail := SetOption(d[1..], k, v);
      SetOptionDistinct(d[1..], k, v);
      LookupNone(d[1..], d[0].0);
      LookupNone(tail, d[0].0);
      assert forall i :: 1 <= i < |r| ==> r[i] == tail[i - 1];
    }
  }

  /** `d.update(kwa)`, for a keyword dictionary `kwa` (distinct keys): the
      keyword values win, the other keys keep their values. */
  function Update(d: Options, kwa: Options): (r: Options)
    requires DistinctKeys(kwa)
    ensures forall k :: Lookup(r, k) == if Lookup(kwa, k).Some? then Lookup(kwa, k) else Lookup(d, k)
    decreases |kwa|
  {
    if kwa == [] then d
    else
      LookupNone(kwa[1..], kwa[0].0);
      Update(SetOption(d, kwa[0].0, kwa[0].1), kwa[1..])
  }

  lemma {:induction false} UpdateDistinct(d: Options, kwa: Options)
    requires DistinctKeys(d) && DistinctKeys(kwa)
    ensures DistinctKeys(Update(d, kwa))
    decreases |kwa|
  {
    if kwa != [] {
      SetOptionDistinct(d, kwa[0].0, kwa[0].1);
      UpdateDistinct(SetOption(d, kwa[0].0, kwa[0].1), kwa[1..]);
    }
  }

  /** `dict(search_query=query_str)` updated with the keyword arguments: the
      keyword arguments win, `search_query` included. */
  function SearchOptions(queryStr: string, kwa: Options): (r: Options)
    requires DistinctKeys(kwa)
    ensures DistinctKeys(r)
    ensures Lookup(r, "search_query") == if Lookup(kwa, "search_query").Some? then Lookup(kwa, "search_query") else Some(queryStr)
    ensures forall k :: k != "search_query" ==> Lookup(r, k) == Lookup(kwa, k)
  {
    UpdateDistinct([("search_query", queryStr)], kwa);
    assert forall k :: k != "search_query" ==> Lookup([("search_query", queryStr)], k) == None;
    Update([("search_query", queryStr)], kwa)
  }

  /** `'{}={}'.format(k, v)` over the options, joined by `&`. */
  function QueryString(opts: Options): string
  {
    JoinWith(seq(|opts|, i requires 0 <= i < |opts| => opts[i].0 + "=" + opts[i].1), '&')
  }

  /** The URL `query` requests: `base_url?k1=v1&k2=v2...`, values not escaped. */
  function QueryUrl(baseUrl: string, opts: Options): (url: string)
    ensures baseUrl + "?" <= url
  {
    baseUrl + "?" + QueryString(opts)
  }

  /** Reads a query URL back: the base before the first `?`, then the
      `&`-separated `key=value` pairs. */
  function ParseQueryUrl(url: string): Option<(string, Options)>
  {
    match SplitFirst(url, '?')
    case None => None
    case Some(parts) =>
      var pieces := SplitOn(parts.1, '&');
      if forall i :: 0 <= i < |pieces| ==> SplitFirst(pieces[i], '=').Some? then
        Some((parts.0, seq(|pieces|, i requires 0 <= i < |pieces| => SplitFirst(pieces[i], '=').value)))
      else None
  }

  /** The URL carries the base and every option, in order, as long as the
      base has no `?`, no key holds `&` or `=`, and no value holds `&`. */
  lemma QueryUrlRoundTrip(baseUrl: string, opts: Options)
    requires '?' !in baseUrl
    requires |opts| > 0
    requires forall i :: 0 <= i < |opts| ==> '&' !in opts[i].0 && '=' !in opts[i].0 && '&' !in opts[i].1
    ensures ParseQueryUrl(QueryUrl(baseUrl, opts)) == Some((baseUrl, opts))
  {
    var params := seq(|opts|, i requires 0 <= i < |opts| => opts[i].0 + "=" + opts[i].1);
    var query := JoinWith(params, '&');
    assert QueryString(opts) == query;
    assert QueryUrl(baseUrl, opts) == baseUrl + ['?'] + query;
    SplitFirstAt(baseUrl, query, '?');
    forall i | 0 <= i < |params| ensures '&' !in params[i] && SplitFirst(params[i], '=') == Some(opts[i]) {
      assert params[i] == opts[i].0 + ['='] + opts[i].1;
      SplitFirstAt(opts[i].0, opts[i].1, '=');
    }
    SplitOnJoin(params, '&');
    var pieces := SplitOn(query, '&');
    assert pieces == params;
    var pairs := seq(|pieces|, i requires 0 <= i < |pieces| => SplitFirst(pieces[i], '=').value);
    assert pairs == opts;
  }

  // ---------------------------------------------------------------------
  // From an Atom entry to a paper record

  /** An `<author>` element: the text of its `<name>` child, if it has one. */
  datatype Author = Author(name: Option<string>)

  /** An `<entry>` element: the texts of its `<id>`, `<title>` and
      `<summary>` children if present, its `<updated>` time if present and
      parseable, and its `<author>` children in document order. */
  datatype AtomEntry = AtomEntry(id: Option<string>, title: Option<string>, summary: Option<string>,
                                 updated: Option<int>, authors: seq<Author>)

  /** The dict `search_query` builds for one entry. */
  datatype Paper = Paper(url: string, title: string, summary: string, authors: seq<string>, updatedAt: int)

  const NotAvailable: string := "N/A"

  /** A child's text, or "N/A" when the child is missing. */
  function TextOr(field: Option<string>): (r: string)
    ensures field.None? ==> r == NotAvailable
    ensures field.Some? ==> r == field.value
  {
    match field
    case None => NotAvailable
    case Some(text) => text
  }

  /** The names of all authors, or nothing when one of them has none. */
  function AllNames(authors: seq<Author>): (r: Option<seq<string>>)
    ensures r.Some? <==> forall k :: 0 <= k < |authors| ==> authors[k].name.Some?
    ensures r.Some? ==> |r.value| == |authors| && forall k :: 0 <= k < |authors| ==> r.value[k] == authors[k].name.value
  {
    if authors == [] then Some([])
    else match (authors[0].name, AllNames(authors[1..]))
      case (Some(n), Some(rest)) => Some([n] + rest)
      case _ => None
  }

  /** The author list: every name in order, but no authors at all as soon as
      one `<author>` lacks a `<name>` (the AttributeError ends the whole list). */
  function AuthorNames(authors: seq<Author>): (r: seq<string>)
    ensures (forall k :: 0 <= k < |authors| ==> authors[k].name.Some?) ==>
              |r| == |authors| && forall k :: 0 <= k < |authors| ==> r[k] == authors[k].name.value
    ensures (exists k :: 0 <= k < |authors| && authors[k].name.None?) ==> r == []
  {
    match AllNames(authors)
    case Some(names) => names
    case None => []
  }

  /** The record for one entry; `now` is the clock reading used when
      `<updated>` is missing or does not parse. */
  function PaperOf(n: AtomEntry, now: int): (p: Paper)
    ensures n.id.None? ==> p.url == NotAvailable
    ensures n.title.None? ==> p.title == NotAvailable
    ensures n.summary.None? ==> p.summary == NotAvailable
    ensures n.id.Some? ==> p.url == n.id.value
    ensures n.title.Some? ==> p.title == n.title.value
    ensures n.summary.Some? ==> p.summary == n.summary.value
    ensures p.updatedAt == if n.updated.Some? then n.updated.value else now
    ensures p.authors == AuthorNames(n.authors)
  {
    Paper(TextOr(n.id), TextOr(n.title), TextOr(n.summary), AuthorNames(n.authors),
          match n.updated case Some(t) => t case None => now)
  }

  /** `search_query`: the URL it requests, and one record per `<entry>` of
      the reply, in document order. */
  method SearchQuery(baseUrl: string, queryStr: string, kwa: Options, reply: seq<AtomEntry>, now: int)
    returns (url: string, res: seq<Paper>)
    requires DistinctKeys(kwa)
    ensures url == QueryUrl(baseUrl, SearchOptions(queryStr, kwa))
    ensures |res| == |reply|
    ensures forall k :: 0 <= k < |reply| ==> res[k] == PaperOf(reply[k], now)
  {
    url := QueryUrl(baseUrl, SearchOptions(queryStr, kwa));
    res := [];
    for i := 0 to |reply|
      invariant |res| == i
      invariant forall k :: 0 <= k < i ==> res[k] == PaperOf(reply[k], now)
    {
      res := res + [PaperOf(reply[i], now)];
    }
  }
}
