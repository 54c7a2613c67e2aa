/** The `Entries` table of src/arxiv_bot.py: the SQLite table of every paper
    the bot has seen, keyed by its url, with the time it was tweeted. The
    table is a map from url to the rest of the row. */
module Store {

  /** The `tweeted_at` column: the empty string until the paper is tweeted,
      then the time of the successful tweet. */
  datatype Stamp = Blank | At(time: int)

  /** One row of the table without its key; `authors` is the ", "-join of the
      author list. */
  datatype Row = Row(title: string, authors: string, summary: string, updatedAt: int, tweetedAt: Stamp)

  /** An entry dict as the bot passes it around. A dict without a
      `tweeted_at` key reads as `Blank`, as `entry.get('tweeted_at', '')` does. */
  datatype Entry = Entry(url: string, title: string, authors: seq<string>, summary: string,
                         updatedAt: int, tweetedAt: Stamp)

  /** The column declarations of the table, in the order of the row tuple. */
  function Schema(): seq<string>
  {
    ["url text primary key", "title text", "authors text", "summary text", "updated_at date", "tweeted_at date"]
  }

  /** `column.split(' ')[0]`: a column declaration up to its first space. */
  function FirstWord(s: string): (w: string)
    ensures w <= s && ' ' !in w
    ensures |w| < |s| ==> s[|w|] == ' '
  {
    if s == [] || s[0] == ' ' then [] else [s[0]] + FirstWord(s[1..])
  }

  /** `names()`: the column names, in the order in which `parse_entry` zips
      a row; each is the word its declaration starts with. */
  function Names(): (r: seq<string>)
    ensures |r| == |Schema()|
    ensures forall i :: 0 <= i < |r| ==> r[i] <= Schema()[i] && ' ' !in r[i]
    ensures forall i :: 0 <= i < |r| && |r[i]| < |Schema()[i]| ==> Schema()[i][|r[i]|] == ' '
  {
    var cs := Schema();
    seq(|cs|, i requires 0 <= i < |cs| => FirstWord(cs[i]))
  }

  /** A column declared as `w + " " + rest` is named `w`. */
  lemma NameIs(i: nat, w: string, rest: string)
    requires i < |Schema()| && Schema()[i] == w + " " + rest && ' ' !in w
    ensures Names()[i] == w
  {
    var r := Names();
    var c := Schema()[i];
    var n := |w|;
    assert c[n] == ' ';
    assert forall j :: 0 <= j < n ==> c[j] == w[j] && c[j] != ' ';
    assert |r[i]| == n;
    assert c[..n] == w;
  }

  /** The first column, the one `parse_entry` reads the key from, is `url`. */
  lemma KeyColumnFirst()
    ensures Names()[0] == "url"
  {
    NameIs(0, "url", "text primary key");
  }

  /** The second column, read as `e['title']`, is `title`. */
  lemma TitleColumnSecond()
    ensures Names()[1] == "title"
  {
    NameIs(1, "title", "text");
  }

  /** The third column, read as `e['authors']`, is `authors`. */
  lemma AuthorsColumnThird()
    ensures Names()[2] == "authors"
  {
    NameIs(2, "authors", "text");
  }

  /** The fourth column is `summary`. */
  lemma SummaryColumnFourth()
    ensures Names()[3] == "summary"
  {
    NameIs(3, "summary", "text");
  }

  /** The fifth column is `updated_at`. */
  lemma UpdatedAtColumnFifth()
    ensures Names()[4] == "updated_at"
  {
    NameIs(4, "updated_at", "date");
  }

  /** The sixth column is `tweeted_at`. */
  lemma TweetedAtColumnSixth()
    ensures Names()[5] == "tweeted_at"
  {
    NameIs(5, "tweeted_at", "date");
  }

  // ---------------------------------------------------------------------
  // The authors column: a ", "-join and the split that undoes it

  predicate SepAt(s: string, i: int)
  {
    0 <= i && i + 1 < |s| && s[i] == ',' && s[i + 1] == ' '
  }

  /** Whether `", "` occurs in `s`. */
  predicate HasSep(s: string)
  {
    exists i :: 0 <= i < |s| && SepAt(s, i)
  }

  /** `', '.join(xs)` */
  function Join(xs: seq<string>): string
  {
    if |xs| == 0 then "" else if |xs| == 1 then xs[0] else xs[0] + ", " + Join(xs[1..])
  }

  /** `s.split(', ')`: the pieces between the occurrences of ", ", scanned
      from the left. */
  function Split(s: string): (r: seq<string>)
    ensures |r| >= 1 && r[0] <= s
    ensures forall k :: 0 <= k < |r| ==> !HasSep(r[k])
    decreases |s|
  {
    if |s| < 2 then [s]
    else if SepAt(s, 0) then [""] + Split(s[2..])
    else
      var rest := Split(s[1..]);
      var first := [s[0]] + rest[0];
      assert |rest[0]| > 0 ==> rest[0][0] == s[1];
      assert forall i :: 0 < i < |first| ==> (SepAt(first, i) <==> SepAt(rest[0], i - 1));
      [[s[0]] + rest[0]] + rest[1..]
  }

  /** What `parse_entry` does to the authors column: split it when it holds
      ", ", otherwise keep it as the one author. */
  function ParseAuthors(s: string): seq<string>
  {
    if HasSep(s) then Split(s) else [s]
  }

  /** Joining undoes splitting, always. */
  lemma {:induction false} JoinSplit(s: string)
    ensures Join(Split(s)) == s
    decreases |s|
  {
    if |s| < 2 {
    } else if SepAt(s, 0) {
      JoinSplit(s[2..]);
      assert s == ", " + s[2..];
    } else {
      JoinSplit(s[1..]);
      JoinSplitStep(s);
    }
  }

  /** The step of `JoinSplit` for a string that does not start with ", ":
      its first piece grows by the first character. */
  lemma {:induction false} JoinSplitStep(s: string)
    requires |s| >= 2 && !SepAt(s, 0)
    requires Join(Split(s[1..])) == s[1..]
    ensures Join(Split(s)) == s
  {
    var rest := Split(s[1..]);
    assert Split(s) == [[s[0]] + rest[0]] + rest[1..];
    JoinGrow(s[0], rest);
    assert s == [s[0]] + s[1..];
  }

  /** Growing the first piece by a character grows the join by it. */
  lemma {:induction false} JoinGrow(c: char, xs: seq<string>)
    requires |xs| >= 1
    ensures Join([[c] + xs[0]] + xs[1..]) == [c] + Join(xs)
  {
    var ys := [[c] + xs[0]] + xs[1..];
    if |xs| > 1 {
      assert ys[1..] == xs[1..];
      assert Join(ys) == ys[0] + ", " + Join(xs[1..]);
    }
  }

  /** Storing the parsed authors again reproduces the stored column. */
  lemma ParseAuthorsRoundTrip(s: string)
    ensures Join(ParseAuthors(s)) == s
  {
    JoinSplit(s);
  }

  lemma {:induction false} SplitNoSep(a: string)
    requires !HasSep(a)
    ensures Split(a) == [a]
    decreases |a|
  {
    if |a| >= 2 {
      assert !SepAt(a, 0);
      assert !HasSep(a[1..]) by {
        if HasSep(a[1..]) {
          var i :| 0 <= i < |a[1..]| && SepAt(a[1..], i);
          assert SepAt(a, i + 1);
        }
      }
      SplitNoSep(a[1..]);
      assert a == [a[0]] + a[1..];
    }
  }

  lemma {:induction false} SplitAfterPiece(a: string, b: string)
    requires !HasSep(a)
    ensures Split(a + ", " + b) == [a] + Split(b)
    decreases |a|
  {
    var s := a + ", " + b;
    if |a| == 0 {
      assert s[2..] == b;
    } else {
      assert !SepAt(s, 0) by {
        if |a| >= 2 { assert !SepAt(a, 0); }
      }
      assert !HasSep(a[1..]) by {
        if HasSep(a[1..]) {
          var i :| 0 <= i < |a[1..]| && SepAt(a[1..], i);
          assert SepAt(a, i + 1);
        }
      }
      assert s[1..] == a[1..] + ", " + b;
      SplitAfterPiece(a[1..], b);
      assert a == [a[0]] + a[1..];
    }
  }

  /** The split undoes the join whenever there is at least one author and no
      author name holds ", ". */
  lemma {:induction false} SplitJoin(xs: seq<string>)
    requires |xs| > 0
    requires forall k :: 0 <= k < |xs| ==> !HasSep(xs[k])
    ensures Split(Join(xs)) == xs
    ensures ParseAuthors(Join(xs)) == xs
  {
    if |xs| == 1 {
      SplitNoSep(xs[0]);
    } else {
      SplitJoin(xs[1..]);
      SplitAfterPiece(xs[0], Join(xs[1..]));
      assert xs == [xs[0]] + xs[1..];
    }
    if !HasSep(Join(xs)) {
      SplitNoSep(Join(xs));
    }
  }

  /** The two inputs on which the join is not undone: no author at all comes
      back as one empty name, and a name holding ", " comes back as two. */
  lemma JoinNotInverted()
    ensures ParseAuthors(Join([])) == [""]
    ensures ParseAuthors(Join(["Doe, J"])) == ["Doe", "J"]
  {
    assert !HasSep("");
    assert SepAt("Doe, J", 3);
    assert !HasSep("Doe") by {
      assert forall i :: 0 <= i < 3 ==> !SepAt("Doe", i);
    }
    assert !HasSep("J");
    SplitAfterPiece("Doe", "J");
    SplitNoSep("J");
    assert "Doe" + ", " + "J" == "Doe, J";
  }

  // ---------------------------------------------------------------------
  // Upsert: `add_or_update_entry`

  /** The row `add_or_update_entry` inserts for a url not yet in the table. */
  function RowOf(e: Entry): Row
  {
    Row(e.title, Join(e.authors), e.summary, e.updatedAt, e.tweetedAt)
  }

  /** The row after an update of `stored` by `e`: four columns overwritten,
      `tweeted_at` only when the entry carries a non-empty one. */
  function Refresh(stored: Row, e: Entry): Row
  {
    Row(e.title, Join(e.authors), e.summary, e.updatedAt,
        if e.tweetedAt != Blank then e.tweetedAt else stored.tweetedAt)
  }

  /** The table after `add_or_update_entry(e)`. */
  function Upsert(t: map<string, Row>, e: Entry): (r: map<string, Row>)
    ensures r.Keys == t.Keys + {e.url}
    ensures forall u :: u in t && u != e.url ==> r[u] == t[u]
    ensures r[e.url].title == e.title && r[e.url].summary == e.summary
    ensures r[e.url].authors == Join(e.authors) && r[e.url].updatedAt == e.updatedAt
    ensures e.tweetedAt != Blank ==> r[e.url].tweetedAt == e.tweetedAt
    ensures e.tweetedAt == Blank ==> r[e.url].tweetedAt == if e.url in t then t[e.url].tweetedAt else Blank
  {
    if e.url in t then t[e.url := Refresh(t[e.url], e)] else t[e.url := RowOf(e)]
  }

  /** The table grows by one row exactly when the url is new. */
  lemma UpsertSize(t: map<string, Row>, e: Entry)
    ensures |Upsert(t, e)| == if e.url in t then |t| else |t| + 1
  {
    if e.url !in t {
      assert Upsert(t, e).Keys == t.Keys + {e.url};
    }
  }

  /** Re-storing a row as `parse_entry` gave it back leaves the table as it was. */
  lemma ReUpsertParsed(t: map<string, Row>, u: string)
    requires u in t
    ensures Upsert(t, ParseEntry(u, t[u])) == t
  {
    ParseAuthorsRoundTrip(t[u].authors);
  }

  /** Re-storing a parsed row with a fresh `tweeted_at` changes that column only. */
  lemma UpsertMarksTweeted(t: map<string, Row>, u: string, at: int)
    requires u in t
    ensures Upsert(t, ParseEntry(u, t[u]).(tweetedAt := At(at))) == t[u := t[u].(tweetedAt := At(at))]
  {
    ParseAuthorsRoundTrip(t[u].authors);
  }

  // ---------------------------------------------------------------------
  // Listing the untweeted rows: `get_untweeted_entries`

  /** `parse_entry` on the row stored under `url`: the row's columns are
      zipped with `Names()` in order, and `KeyColumnFirst` through
      `TweetedAtColumnSixth` show that each field below is the column of
      the same name; the authors column is split. */
  function ParseEntry(url: string, row: Row): Entry
  {
    Entry(url, row.title, ParseAuthors(row.authors), row.summary, row.updatedAt, row.tweetedAt)
  }

  function UntweetedUrls(t: map<string, Row>): set<string>
  {
    set u | u in t && t[u].tweetedAt == Blank
  }

  /** `a` may come before `b`: ascending `updated_at`, or descending when the
      latest come first. */
  predicate Before(a: Entry, b: Entry, latestFirst: bool)
  {
    if latestFirst then a.updatedAt >= b.updatedAt else a.updatedAt <= b.updatedAt
  }

  predicate Sorted(s: seq<Entry>, latestFirst: bool)
  {
    forall i, j :: 0 <= i < j < |s| ==> Before(s[i], s[j], latestFirst)
  }

  predicate DistinctUrls(s: seq<Entry>)
  {
    forall i, j :: 0 <= i < j < |s| ==> s[i].url != s[j].url
  }

  function Urls(s: seq<Entry>): set<string>
  {
    if s == [] then {} else Urls(s[..|s| - 1]) + {s[|s| - 1].url}
  }

  /** `es` is what `get_untweeted_entries(latestFirst)` may return for table
      `t`: every row with an empty `tweeted_at`, parsed, once each, ordered
      by `updated_at` (rows with equal times in any order, as in SQLite). */
  ghost predicate IsUntweetedListing(t: map<string, Row>, es: seq<Entry>, latestFirst: bool)
  {
    && Sorted(es, latestFirst)
    && DistinctUrls(es)
    && (forall k :: 0 <= k < |es| ==>
          es[k].url in t && t[es[k].url].tweetedAt == Blank && es[k] == ParseEntry(es[k].url, t[es[k].url]))
    && (forall u :: u in t && t[u].tweetedAt == Blank ==> ParseEntry(u, t[u]) in es)
  }

  /** `s` with `e` placed before the first element it may precede. */
  function Insert(e: Entry, s: seq<Entry>, latestFirst: bool): (r: seq<Entry>)
    ensures multiset(r) == multiset(s) + multiset{e}
  {
    if s == [] || Before(e, s[0], latestFirst) then [e] + s
    else
      assert s == [s[0]] + s[1..];
      [s[0]] + Insert(e, s[1..], latestFirst)
  }

  lemma InsertMembers(e: Entry, s: seq<Entry>, latestFirst: bool)
    ensures forall x :: x in Insert(e, s, latestFirst) <==> x == e || x in s
  {
    var r := Insert(e, s, latestFirst);
    forall x ensures x in r <==> x == e || x in s {
      assert x in r <==> x in multiset(r);
      assert x in s <==> x in multiset(s);
    }
  }

  /** Inserting keeps a listing in order. */
  lemma {:induction false} InsertSorted(e: Entry, s: seq<Entry>, latestFirst: bool)
    requires Sorted(s, latestFirst)
    ensures Sorted(Insert(e, s, latestFirst), latestFirst)
  {
    if s != [] && !Before(e, s[0], latestFirst) {
      var tail := Insert(e, s[1..], latestFirst);
      InsertSorted(e, s[1..], latestFirst);
      InsertMembers(e, s[1..], latestFirst);
      assert forall k :: 0 <= k < |tail| ==> Before(s[0], tail[k], latestFirst) by {
        forall k | 0 <= k < |tail| ensures Before(s[0], tail[k], latestFirst) {
          assert tail[k] in tail;
          if tail[k] != e {
            var j :| 0 <= j < |s[1..]| && s[1..][j] == tail[k];
            assert s[j + 1] == tail[k];
          }
        }
      }
    }
  }

  /** Inserting an entry with a fresh url keeps the urls distinct. */
  lemma {:induction false} InsertDistinct(e: Entry, s: seq<Entry>, latestFirst: bool)
    requires DistinctUrls(s)
    requires forall k :: 0 <= k < |s| ==> s[k].url != e.url
    ensures DistinctUrls(Insert(e, s, latestFirst))
  {
    if s != [] && !Before(e, s[0], latestFirst) {
      var tail := Insert(e, s[1..], latestFirst);
      InsertDistinct(e, s[1..], latestFirst);
      InsertMembers(e, s[1..], latestFirst);
      assert forall k :: 0 <= k < |tail| ==> tail[k].url != s[0].url by {
        forall k | 0 <= k < |tail| ensures tail[k].url != s[0].url {
          assert tail[k] in tail;
          if tail[k] != e {
            var j :| 0 <= j < |s[1..]| && s[1..][j] == tail[k];
            assert s[j + 1] == tail[k];
          }
        }
      }
    }
  }

  lemma {:induction false} UrlsMember(s: seq<Entry>, u: string)
    ensures u in Urls(s) <==> exists k :: 0 <= k < |s| && s[k].url == u
  {
    if s != [] {
      UrlsMember(s[..|s| - 1], u);
      if u in Urls(s[..|s| - 1]) {
        var k :| 0 <= k < |s| - 1 && s[..|s| - 1][k].url == u;
        assert s[k].url == u;
      }
    }
  }

  lemma {:induction false} DistinctUrlsCount(s: seq<Entry>)
    requires DistinctUrls(s)
    ensures |Urls(s)| == |s|
  {
    if s != [] {
      var p := s[..|s| - 1];
      DistinctUrlsCount(p);
      UrlsMember(p, s[|s| - 1].url);
    }
  }

  /** A listing holds exactly the untweeted urls, so its length is their count. */
  lemma ListingCount(t: map<string, Row>, es: seq<Entry>, latestFirst: bool)
    requires IsUntweetedListing(t, es, latestFirst)
    ensures Urls(es) == UntweetedUrls(t)
    ensures |es| == |UntweetedUrls(t)|
  {
    forall u ensures u in Urls(es) <==> u in UntweetedUrls(t) {
      UrlsMember(es, u);
      if u in UntweetedUrls(t) {
        var k :| 0 <= k < |es| && es[k] == ParseEntry(u, t[u]);
      }
    }
    DistinctUrlsCount(es);
  }

  /** The SQLite table of src/arxiv_bot.py:36-109. */
  class Entries {
    var table: map<string, Row>

    /** Opens a database that already holds `existing` (CREATE TABLE IF NOT EXISTS). */
    constructor (existing: map<string, Row>)
      ensures table == existing
    {
      table := existing;
    }

    /** `has_entry`: whether a row with this url exists. */
    method HasEntry(url: string) returns (present: bool)
      ensures present <==> url in table
    {
      present := url in table;
    }

    /** `add_or_update_entry`: an upsert keyed by url. */
    method AddOrUpdateEntry(e: Entry) returns (wasNew: bool)
      modifies this
      ensures wasNew <==> e.url !in old(table)
      ensures table == Upsert(old(table), e)
    {
      var present := HasEntry(e.url);
      if present {
        table := table[e.url := Refresh(table[e.url], e)];
        wasNew := false;
      } else {
        table := table[e.url := RowOf(e)];
        wasNew := true;
      }
    }

    /** `get_total_entries`: the number of rows. */
    method GetTotalEntries() returns (n: nat)
      ensures n == |table|
    {
      n := |table|;
    }

    /** `get_untweeted_entries`: the rows with an empty `tweeted_at`, parsed,
        in `updated_at` order. The scan picks the rows in any order and
        places each at its sorted position, as the ORDER BY of the query does. */
    method GetUntweetedEntries(latestFirst: bool) returns (es: seq<Entry>)
      ensures IsUntweetedListing(table, es, latestFirst)
    {
      var rest := table.Keys;
      es := [];
      while rest != {}
        invariant rest <= table.Keys
        invariant Sorted(es, latestFirst) && DistinctUrls(es)
        invariant forall k :: 0 <= k < |es| ==>
          es[k].url in table && es[k].url !in rest && table[es[k].url].tweetedAt == Blank
          && es[k] == ParseEntry(es[k].url, table[es[k].url])
        invariant forall u :: u in table && u !in rest && table[u].tweetedAt == Blank ==> ParseEntry(u, table[u]) in es
        decreases rest
      {
        var u :| u in rest;
        rest := rest - {u};
        if table[u].tweetedAt == Blank {
          var e := ParseEntry(u, table[u]);
          ghost var before := es;
          assert forall k :: 0 <= k < |before| ==> before[k].url != u;
          es := Insert(e, es, latestFirst);
          InsertMembers(e, before, latestFirst);
          InsertSorted(e, before, latestFirst);
          InsertDistinct(e, before, latestFirst);
          forall k | 0 <= k < |es|
            ensures es[k].url in table && es[k].url !in rest && table[es[k].url].tweetedAt == Blank
            ensures es[k] == ParseEntry(es[k].url, table[es[k].url])
          {
            assert es[k] in es;
          }
        }
      }
    }
  }
}
