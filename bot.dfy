/** The `ArXivBot` of src/arxiv_bot.py: store every paper the feed returns,
    then tweet the oldest untweeted ones, marking a paper tweeted only when
    its tweet went out. The feed's reply and the poster's answers are inputs. */
module Bot {
  import opened Store
  import ArxivApi

  /** The poster's answer to one tweet; on success, `at` is the clock
      reading `datetime.now()` gives right after it. */
  datatype PostResult = Rejected | Accepted(at: int)

  /** The longest message `format_entry` aims for. */
  const MaxLength: int := 140

  // ---------------------------------------------------------------------
  // Python slicing and the message format

  /** The length of `s[:stop]` for a sequence of length `len`: a negative
      stop counts from the end, and both are clamped to the sequence. */
  function PrefixLength(len: nat, stop: int): (n: nat)
    ensures n <= len
    ensures 0 <= stop <= len ==> n == stop
    ensures stop > len ==> n == len
    ensures stop < 0 ==> n == if len + stop >= 0 then len + stop else 0
  {
    if stop >= 0 then (if stop <= len then stop else len)
    else if len + stop >= 0 then len + stop
    else 0
  }

  /** `s[:stop]` */
  function PyPrefix<T>(s: seq<T>, stop: int): (r: seq<T>)
    ensures r <= s && |r| == PrefixLength(|s|, stop)
  {
    s[..PrefixLength(|s|, stop)]
  }

  /** `format_entry`: `title. url`, and when that is longer than 140
      characters, the title cut short and ended with `..`; the url is never cut. */
  function FormatEntry(title: string, url: string): (r: string)
    ensures |title| + 2 + |url| <= MaxLength ==> r == title + ". " + url
    ensures |title| + 2 + |url| > MaxLength && |url| <= MaxLength - 4 ==>
              r == title[..MaxLength - 4 - |url|] + ".." + ". " + url && |r| == MaxLength
    ensures |title| + 2 + |url| > MaxLength && |url| > MaxLength - 4 ==>
              r == ".." + ". " + url && |r| > MaxLength
    ensures |r| <= MaxLength <==> |title| + 2 + |url| <= MaxLength || |url| <= MaxLength - 4
    ensures ". " + url <= r[|r| - |url| - 2..]
  {
    var full := title + ". " + url;
    var exceed := |full| - MaxLength;
    if exceed > 0 then PyPrefix(title, -exceed - 2) + ".." + ". " + url else full
  }

  // ---------------------------------------------------------------------
  // Fetching: every paper of the reply is upserted

  /** A fetched paper as an entry: it has no `tweeted_at` key. */
  function AsEntry(p: ArxivApi.Paper): Entry
  {
    Entry(p.url, p.title, p.authors, p.summary, p.updatedAt, Blank)
  }

  /** The urls of the fetched papers. */
  function FetchedUrls(ps: seq<ArxivApi.Paper>): set<string>
  {
    if ps == [] then {} else FetchedUrls(ps[..|ps| - 1]) + {ps[|ps| - 1].url}
  }

  /** The table after upserting the papers one after the other. */
  function UpsertAll(t: map<string, Row>, ps: seq<ArxivApi.Paper>): map<string, Row>
  {
    if ps == [] then t else Upsert(UpsertAll(t, ps[..|ps| - 1]), AsEntry(ps[|ps| - 1]))
  }

  /** Fetching adds a row for every fetched url and no other. */
  lemma {:induction false} UpsertAllKeys(t: map<string, Row>, ps: seq<ArxivApi.Paper>)
    ensures UpsertAll(t, ps).Keys == t.Keys + FetchedUrls(ps)
  {
    if ps != [] {
      UpsertAllKeys(t, ps[..|ps| - 1]);
    }
  }

  /** Rows of urls the feed did not return stay as they were. */
  lemma {:induction false} UpsertAllOthers(t: map<string, Row>, ps: seq<ArxivApi.Paper>, u: string)
    requires u in t && u !in FetchedUrls(ps)
    ensures u in UpsertAll(t, ps) && UpsertAll(t, ps)[u] == t[u]
  {
    if ps != [] {
      UpsertAllOthers(t, ps[..|ps| - 1], u);
    }
  }

  /** A fetch never touches `tweeted_at`: a stored row keeps its stamp, or
      stays untweeted, and a row the fetch created is untweeted. */
  lemma {:induction false} UpsertAllStamps(t: map<string, Row>, ps: seq<ArxivApi.Paper>, u: string)
    requires u in UpsertAll(t, ps)
    ensures u in t ==> UpsertAll(t, ps)[u].tweetedAt == t[u].tweetedAt
    ensures u !in t ==> UpsertAll(t, ps)[u].tweetedAt.Blank?
  {
    if ps != [] {
      var n := |ps| - 1;
      UpsertAllKeys(t, ps[..n]);
      if u in UpsertAll(t, ps[..n]) {
        UpsertAllStamps(t, ps[..n], u);
      }
    }
  }

  /** A fetched url's row holds the fields of its last occurrence in the reply. */
  lemma {:induction false} LastFetchWins(t: map<string, Row>, ps: seq<ArxivApi.Paper>, i: nat)
    requires i < |ps|
    requires forall j :: i < j < |ps| ==> ps[j].url != ps[i].url
    ensures var r := UpsertAll(t, ps);
            && ps[i].url in r
            && r[ps[i].url].title == ps[i].title && r[ps[i].url].summary == ps[i].summary
            && r[ps[i].url].authors == Join(ps[i].authors) && r[ps[i].url].updatedAt == ps[i].updatedAt
  {
    var n := |ps| - 1;
    var prev := UpsertAll(t, ps[..n]);
    assert UpsertAll(t, ps) == Upsert(prev, AsEntry(ps[n]));
    if i < n {
      var front := ps[..n];
      assert front[i] == ps[i];
      assert forall j :: i < j < |front| ==> front[j] == ps[j];
      LastFetchWins(t, front, i);
      assert ps[n].url != ps[i].url;
    }
  }

  // ---------------------------------------------------------------------
  // Tweeting: the table after a batch of posts

  /** A row after its tweet: stamped on success, unchanged on failure. */
  function Mark(row: Row, o: PostResult): Row
  {
    match o
    case Rejected => row
    case Accepted(at) => row.(tweetedAt := At(at))
  }

  /** The table after posting `batch`, the k-th post answered by `outs[k]`. */
  function MarkTweeted(t: map<string, Row>, batch: seq<Entry>, outs: seq<PostResult>): (r: map<string, Row>)
    requires |outs| == |batch|
    ensures r.Keys == t.Keys
    ensures forall u :: u in t && u !in Urls(batch) ==> r[u] == t[u]
  {
    if batch == [] then t
    else
      var n := |batch| - 1;
      var prev := MarkTweeted(t, batch[..n], outs[..n]);
      var u := batch[n].url;
      if u in prev then prev[u := Mark(prev[u], outs[n])] else prev
  }

  /** The number of posts that went out. */
  function Successes(outs: seq<PostResult>): (n: nat)
    ensures n <= |outs|
  {
    if outs == [] then 0
    else Successes(outs[..|outs| - 1]) + if outs[|outs| - 1].Accepted? then 1 else 0
  }

  /** Each posted entry's row is stamped exactly when its post went out; a
      failed post leaves the row untweeted for the next round. */
  lemma {:induction false} MarkTweetedAt(t: map<string, Row>, batch: seq<Entry>, outs: seq<PostResult>, k: nat)
    requires |outs| == |batch| && DistinctUrls(batch)
    requires k < |batch| && batch[k].url in t
    ensures MarkTweeted(t, batch, outs)[batch[k].url] == Mark(t[batch[k].url], outs[k])
  {
    var n := |batch| - 1;
    if k < n {
      MarkTweetedAt(t, batch[..n], outs[..n], k);
    } else {
      UrlsMember(batch[..n], batch[n].url);
    }
  }

  /** Marking one untweeted row removes it from the untweeted rows exactly
      when its post went out. */
  lemma MarkOne(t: map<string, Row>, u: string, o: PostResult)
    requires u in UntweetedUrls(t)
    ensures |UntweetedUrls(t[u := Mark(t[u], o)])| == |UntweetedUrls(t)| - if o.Accepted? then 1 else 0
  {
    if o.Accepted? {
      assert UntweetedUrls(t[u := Mark(t[u], o)]) == UntweetedUrls(t) - {u};
    } else {
      assert t[u := Mark(t[u], o)] == t;
    }
  }

  /** Posting a batch of distinct untweeted entries leaves as many fewer
      untweeted rows as posts went out. */
  lemma {:induction false} MarkTweetedCount(t: map<string, Row>, batch: seq<Entry>, outs: seq<PostResult>)
    requires |outs| == |batch| && DistinctUrls(batch)
    requires forall k :: 0 <= k < |batch| ==> batch[k].url in UntweetedUrls(t)
    ensures |UntweetedUrls(MarkTweeted(t, batch, outs))| == |UntweetedUrls(t)| - Successes(outs)
  {
    if batch != [] {
      var n := |batch| - 1;
      var prev := MarkTweeted(t, batch[..n], outs[..n]);
      var u := batch[n].url;
      assert forall k :: 0 <= k < n ==> batch[..n][k] == batch[k];
      MarkTweetedCount(t, batch[..n], outs[..n]);
      UrlsMember(batch[..n], u);
      assert u in UntweetedUrls(prev);
      MarkOne(prev, u, outs[n]);
    }
  }

  /** The entries of a batch taken from the front of an oldest-first listing
      are the oldest untweeted ones: no untweeted row left out of the batch
      is older than any entry in it. */
  lemma OldestFirst(t: map<string, Row>, listing: seq<Entry>, stop: int, u: string, k: nat)
    requires IsUntweetedListing(t, listing, false)
    requires k < |PyPrefix(listing, stop)|
    requires u in UntweetedUrls(t) && ParseEntry(u, t[u]) !in PyPrefix(listing, stop)
    ensures PyPrefix(listing, stop)[k].updatedAt <= t[u].updatedAt
  {
    var batch := PyPrefix(listing, stop);
    var j :| 0 <= j < |listing| && listing[j] == ParseEntry(u, t[u]);
    assert listing[k] == batch[k];
  }

  /** The messages posted for a batch, in order. */
  function Messages(batch: seq<Entry>): (ms: seq<string>)
    ensures |ms| == |batch|
  {
    if batch == [] then []
    else Messages(batch[..|batch| - 1]) + [FormatEntry(batch[|batch| - 1].title, batch[|batch| - 1].url)]
  }

  /** The k-th message is the k-th entry's `format_entry` text. */
  lemma {:induction false} MessagesAt(batch: seq<Entry>, k: nat)
    requires k < |batch|
    ensures Messages(batch)[k] == FormatEntry(batch[k].title, batch[k].url)
  {
    var n := |batch| - 1;
    if k < n {
      assert batch[..n][k] == batch[k];
      MessagesAt(batch[..n], k);
    }
  }

  /** One post of the loop in `tweet_untweeted`: the row of the next
      entry is still its stored row, and its mark extends the table. */
  lemma {:induction false} TweetStep(t: map<string, Row>, batch: seq<Entry>, outs: seq<PostResult>, i: nat)
    requires DistinctUrls(batch) && i < |batch| <= |outs| && batch[i].url in t
    ensures var prev := MarkTweeted(t, batch[..i], outs[..i]);
            var u := batch[i].url;
            && u in prev && prev[u] == t[u]
            && MarkTweeted(t, batch[..i + 1], outs[..i + 1]) == prev[u := Mark(prev[u], outs[i])]
            && Successes(outs[..i + 1]) == Successes(outs[..i]) + (if outs[i].Accepted? then 1 else 0)
            && Messages(batch[..i + 1]) == Messages(batch[..i]) + [FormatEntry(batch[i].title, batch[i].url)]
  {
    assert batch[..i + 1][..i] == batch[..i];
    assert outs[..i + 1][..i] == outs[..i];
    UrlsMember(batch[..i], batch[i].url);
  }

  /** The bot: its entry store and the most tweets it sends per round. The
      category and the fetch limit only shape the feed query, whose reply
      is an input here. */
  class ArXivBot {
    const db: Entries
    const maxTweet: int

    constructor (db: Entries, maxTweet: int)
      ensures this.db == db && this.maxTweet == maxTweet
    {
      this.db := db;
      this.maxTweet := maxTweet;
    }

    /** `fetch_new_papers`: upserts every paper of the feed's reply, in
        order, and counts them all (new or not). */
    method FetchNewPapers(found: seq<ArxivApi.Paper>) returns (count: nat)
      modifies db
      ensures count == |found|
      ensures db.table == UpsertAll(old(db.table), found)
    {
      count := 0;
      for i := 0 to |found|
        invariant count == i
        invariant db.table == UpsertAll(old(db.table), found[..i])
      {
        var wasNew := db.AddOrUpdateEntry(AsEntry(found[i]));
        count := count + 1;
        assert found[..i + 1][..i] == found[..i];
      }
      assert found[..|found|] == found;
    }

    /** The loop of `tweet_untweeted`: posts each entry of `batch` in
        order (`outcomes[k]` answers the k-th post) and stamps the entries
        whose post went out. */
    method PostBatch(batch: seq<Entry>, outcomes: seq<PostResult>) returns (count: nat, sent: seq<string>)
      requires DistinctUrls(batch) && |batch| <= |outcomes|
      requires forall k :: 0 <= k < |batch| ==>
                 batch[k].url in db.table && batch[k] == ParseEntry(batch[k].url, db.table[batch[k].url])
      modifies db
      ensures sent == Messages(batch)
      ensures count == Successes(outcomes[..|batch|])
      ensures db.table == MarkTweeted(old(db.table), batch, outcomes[..|batch|])
    {
      count, sent := 0, [];
      for i := 0 to |batch|
        invariant sent == Messages(batch[..i])
        invariant count == Successes(outcomes[..i])
        invariant db.table == MarkTweeted(old(db.table), batch[..i], outcomes[..i])
      {
        var e := batch[i];
        sent := sent + [FormatEntry(e.title, e.url)];
        TweetStep(old(db.table), batch, outcomes, i);
        match outcomes[i] {
          case Accepted(at) =>
            UpsertMarksTweeted(db.table, e.url, at);
            var wasNew := db.AddOrUpdateEntry(e.(tweetedAt := At(at)));
            count := count + 1;
          case Rejected =>
        }
      }
      assert batch[..|batch|] == batch;
    }

    /** `tweet_untweeted`: takes the first `maxTweet` untweeted entries,
        oldest first, posts each, and stamps `tweeted_at` on those whose
        post went out (`outcomes[k]` answers the k-th post). Returns the
        number of successes and the messages sent. */
    method TweetUntweeted(outcomes: seq<PostResult>)
      returns (count: nat, sent: seq<string>, ghost listing: seq<Entry>, ghost batch: seq<Entry>)
      requires |outcomes| >= PrefixLength(|UntweetedUrls(db.table)|, maxTweet)
      modifies db
      ensures IsUntweetedListing(old(db.table), listing, false)
      ensures |listing| == |UntweetedUrls(old(db.table))|
      ensures batch == PyPrefix(listing, maxTweet)
      ensures sent == Messages(batch)
      ensures count == Successes(outcomes[..|batch|])
      ensures db.table == MarkTweeted(old(db.table), batch, outcomes[..|batch|])
      ensures |UntweetedUrls(db.table)| == |UntweetedUrls(old(db.table))| - count
    {
      var entries := db.GetUntweetedEntries(false);
      listing := entries;
      ListingCount(db.table, entries, false);
      var todo := PyPrefix(entries, maxTweet);
      batch := todo;
      assert DistinctUrls(todo);
      forall k | 0 <= k < |todo|
        ensures todo[k].url in db.table && todo[k] == ParseEntry(todo[k].url, db.table[todo[k].url])
      {
        assert todo[k] == entries[k];
      }
      ghost var before := db.table;
      count, sent := PostBatch(todo, outcomes);
      MarkTweetedCount(before, todo, outcomes[..|todo|]);
    }
  }
}
