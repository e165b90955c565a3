/**
 * The trending-hashtags report of TrendingHashtags.java: the hashtags of
 * the tweets posted in February 2024 are counted, ranked by count and
 * then by tag, both descending, and the first three are reported.
 */
module Trending {
  import opened Sorting

  /** A calendar date; the dates compared are valid ones, which compare field by field. */
  datatype Date = Date(year: int, month: int, day: int)

  datatype Tweet = Tweet(userId: int, tweetId: int, date: Date, text: string)

  /** A hashtag with its count. */
  datatype Entry = Entry(tag: string, count: int)

  /** LocalDate.isBefore. */
  predicate IsBefore(a: Date, b: Date) {
    a.year < b.year || (a.year == b.year && (a.month < b.month || (a.month == b.month && a.day < b.day)))
  }

  const Start := Date(2024, 2, 1)
  const End := Date(2024, 2, 29)

  /** The filter of the report: neither before the first nor after the last day of February 2024. */
  predicate InFebruary(d: Date) {
    !IsBefore(d, Start) && !IsBefore(End, d)
  }

  /** The dates that pass are exactly the days 1 to 29 of February 2024. */
  lemma InFebruaryDays(d: Date)
    ensures InFebruary(d) <==> d.year == 2024 && d.month == 2 && 1 <= d.day <= 29
  {
  }

  // ---------------------------------------------------------------------
  // Words and hashtags
  // ---------------------------------------------------------------------

  /** The pieces of s between single spaces, in order (String.split(" ") before it drops trailing empty pieces). */
  function Words(s: string): (ws: seq<string>)
    ensures |ws| >= 1
    decreases |s|
  {
    if s == [] then [""]
    else
      var ws := Words(s[..|s| - 1]);
      var c := s[|s| - 1];
      if c == ' ' then ws + [""] else ws[..|ws| - 1] + [ws[|ws| - 1] + [c]]
  }

  /** The words joined with single spaces. */
  function Join(ws: seq<string>): string
    requires |ws| >= 1
  {
    if |ws| == 1 then ws[0] else Join(ws[..|ws| - 1]) + " " + ws[|ws| - 1]
  }

  /** Splitting loses nothing: joining the words gives the text back. */
  lemma {:induction false} JoinWords(s: string)
    ensures Join(Words(s)) == s
    decreases |s|
  {
    if s != [] {
      var p, c := s[..|s| - 1], s[|s| - 1];
      var ws := Words(p);
      JoinWords(p);
      assert s == p + [c];
      if c == ' ' {
        assert (ws + [""])[..|ws|] == ws;
      } else {
        var n := |ws|;
        var ws' := ws[..n - 1] + [ws[n - 1] + [c]];
        if n > 1 {
          assert ws'[..n - 1] == ws[..n - 1];
        }
      }
    }
  }

  /** No word holds a space. */
  lemma {:induction false} WordsNoSpace(s: string)
    ensures forall i :: 0 <= i < |Words(s)| ==> ' ' !in Words(s)[i]
    decreases |s|
  {
    if s != [] {
      WordsNoSpace(s[..|s| - 1]);
    }
  }

  predicate IsTag(w: string) {
    |w| > 0 && w[0] == '#'
  }

  /** The words that start with '#', in their order. */
  function Tags(ws: seq<string>): (tags: seq<string>)
    ensures forall i :: 0 <= i < |tags| ==> IsTag(tags[i])
  {
    if ws == [] then []
    else Tags(ws[..|ws| - 1]) + (if IsTag(ws[|ws| - 1]) then [ws[|ws| - 1]] else [])
  }

  /** Each hashtag is kept as often as it occurs among the words, and nothing else is kept. */
  lemma {:induction false} TagsCount(ws: seq<string>, x: string)
    ensures multiset(Tags(ws))[x] == if IsTag(x) then multiset(ws)[x] else 0
  {
    if ws != [] {
      TagsCount(ws[..|ws| - 1], x);
      assert ws == ws[..|ws| - 1] + [ws[|ws| - 1]];
    }
  }

  /** The hashtags of one tweet, in order. */
  method ExtractHashtags(tweet: string) returns (hashtags: seq<string>)
    ensures hashtags == Tags(Words(tweet))
  {
    hashtags := [];
    var words := Words(tweet);
    for i := 0 to |words|
      invariant hashtags == Tags(words[..i])
    {
      assert words[..i + 1][..i] == words[..i];
      if IsTag(words[i]) {
        hashtags := hashtags + [words[i]];
      }
    }
    assert words[..|words|] == words;
  }

  // ---------------------------------------------------------------------
  // Counting
  // ---------------------------------------------------------------------

  /** Every hashtag occurrence of the February tweets, tweet after tweet. */
  ghost function Counted(tweets: seq<Tweet>): seq<string> {
    if tweets == [] then []
    else
      var t := tweets[|tweets| - 1];
      Counted(tweets[..|tweets| - 1]) + (if InFebruary(t.date) then Tags(Words(t.text)) else [])
  }

  /** The map built by counting the hashtags of s one by one. */
  ghost function Occurrences(s: seq<string>): map<string, int> {
    if s == [] then map[]
    else
      var m := Occurrences(s[..|s| - 1]);
      var h := s[|s| - 1];
      m[h := (if h in m then m[h] else 0) + 1]
  }

  /** Counting one by one gives every hashtag its number of occurrences. */
  lemma {:induction false} OccurrencesCount(s: seq<string>)
    ensures forall h :: h in Occurrences(s) <==> h in s
    ensures forall h :: h in Occurrences(s) ==> Occurrences(s)[h] == multiset(s)[h]
  {
    if s != [] {
      OccurrencesCount(s[..|s| - 1]);
      assert s == s[..|s| - 1] + [s[|s| - 1]];
    }
  }

  lemma OccurrencesSnoc(s: seq<string>, h: string)
    ensures var m := Occurrences(s); Occurrences(s + [h]) == m[h := (if h in m then m[h] else 0) + 1]
  {
    assert (s + [h])[..|s|] == s;
  }

  /** The inner counting loop: one tweet's hashtags are added to the counts. */
  method CountTweet(counts: map<string, int>, hashtags: seq<string>, ghost before: seq<string>)
    returns (counts': map<string, int>)
    requires counts == Occurrences(before)
    ensures counts' == Occurrences(before + hashtags)
  {
    counts' := counts;
    assert before + hashtags[..0] == before;
    for j := 0 to |hashtags|
      invariant counts' == Occurrences(before + hashtags[..j])
    {
      var hashtag := hashtags[j];
      assert before + hashtags[..j + 1] == (before + hashtags[..j]) + [hashtag];
      OccurrencesSnoc(before + hashtags[..j], hashtag);
      counts' := counts'[hashtag := (if hashtag in counts' then counts'[hashtag] else 0) + 1];
    }
    assert hashtags[..|hashtags|] == hashtags;
  }

  /** The counting loop over the February tweets. */
  method CountHashtags(tweets: seq<Tweet>) returns (counts: map<string, int>)
    ensures forall h :: h in counts <==> h in Counted(tweets)
    ensures forall h :: h in counts ==> counts[h] == multiset(Counted(tweets))[h]
  {
    counts := map[];
    for i := 0 to |tweets|
      invariant counts == Occurrences(Counted(tweets[..i]))
    {
      assert tweets[..i + 1][..i] == tweets[..i];
      var tweet := tweets[i];
      ghost var before := Counted(tweets[..i]);
      assert Counted(tweets[..i + 1]) == before + (if InFebruary(tweet.date) then Tags(Words(tweet.text)) else []);
      if InFebruary(tweet.date) {
        var hashtags := ExtractHashtags(tweet.text);
        counts := CountTweet(counts, hashtags, before);
      } else {
        assert before + [] == before;
      }
    }
    assert tweets[..|tweets|] == tweets;
    OccurrencesCount(Counted(tweets));
  }

  // ---------------------------------------------------------------------
  // Ranking
  // ---------------------------------------------------------------------

  /** String.compareTo(a, b) <= 0: lexicographic order on characters, a proper prefix first. */
  predicate LexLe(a: string, b: string)
    decreases |a|
  {
    if a == [] then true
    else if b == [] then false
    else if a[0] != b[0] then a[0] < b[0]
    else LexLe(a[1..], b[1..])
  }

  lemma {:induction false} LexTotal(a: string, b: string)
    ensures LexLe(a, b) || LexLe(b, a)
    decreases |a|
  {
    if a != [] && b != [] && a[0] == b[0] {
      LexTotal(a[1..], b[1..]);
    }
  }

  lemma {:induction false} LexTransitive(a: string, b: string, c: string)
    requires LexLe(a, b) && LexLe(b, c)
    ensures LexLe(a, c)
    decreases |a|
  {
    if a != [] && b != [] && c != [] && a[0] == b[0] && b[0] == c[0] {
      LexTransitive(a[1..], b[1..], c[1..]);
    }
  }

  lemma {:induction false} LexAntisymmetric(a: string, b: string)
    requires LexLe(a, b) && LexLe(b, a)
    ensures a == b
    decreases |a|
  {
    if a != [] {
      LexAntisymmetric(a[1..], b[1..]);
      assert a == [a[0]] + a[1..] && b == [b[0]] + b[1..];
    }
  }

  /** The comparator of the report: a comes first when its count is higher, or equal with a tag no lower. */
  predicate Precedes(a: Entry, b: Entry) {
    a.count > b.count || (a.count == b.count && LexLe(b.tag, a.tag))
  }

  lemma PrecedesOrder()
    ensures TotalPreorder(Precedes)
    ensures forall a, b :: Precedes(a, b) && Precedes(b, a) ==> a == b
  {
    forall a: Entry, b: Entry ensures Precedes(a, b) || Precedes(b, a) {
      LexTotal(a.tag, b.tag);
    }
    forall a: Entry, b: Entry, c: Entry | Precedes(a, b) && Precedes(b, c) ensures Precedes(a, c) {
      if a.count == b.count == c.count {
        LexTransitive(c.tag, b.tag, a.tag);
      }
    }
    forall a: Entry, b: Entry | Precedes(a, b) && Precedes(b, a) ensures a == b {
      LexAntisymmetric(a.tag, b.tag);
    }
  }

  predicate NoDuplicates(s: seq<Entry>) {
    forall i, j :: 0 <= i < j < |s| ==> s[i] != s[j]
  }

  /** Appending keeps a sequence free of duplicates exactly when the new element is not there yet. */
  lemma NoDuplicatesSnoc(p: seq<Entry>, last: Entry)
    ensures NoDuplicates(p + [last]) <==> NoDuplicates(p) && last !in p
  {
    var s := p + [last];
    if NoDuplicates(s) {
      assert forall i, j :: 0 <= i < j < |p| ==> p[i] == s[i] && p[j] == s[j];
      forall i | 0 <= i < |p| ensures p[i] != last {
        assert s[i] != s[|p|];
      }
    }
  }

  /** A sequence without duplicates holds each element once, and a rearrangement of it has none either. */
  lemma {:induction false} NoDuplicatesCount(s: seq<Entry>)
    ensures NoDuplicates(s) <==> forall x :: multiset(s)[x] <= 1
  {
    if s != [] {
      var p, last := s[..|s| - 1], s[|s| - 1];
      NoDuplicatesCount(p);
      assert s == p + [last];
      NoDuplicatesSnoc(p, last);
      assert multiset(s) == multiset(p) + multiset{last};
      if forall x :: multiset(s)[x] <= 1 {
        assert multiset(s)[last] == multiset(p)[last] + 1;
        forall x ensures multiset(p)[x] <= 1 {
          assert multiset(p)[x] <= multiset(s)[x];
        }
      }
    }
  }

  /** The map's entries in some order (the iteration order of a HashMap is left open). */
  method EntryList(counts: map<string, int>) returns (entries: seq<Entry>)
    ensures NoDuplicates(entries) && |entries| == |counts|
    ensures forall i :: 0 <= i < |entries| ==> entries[i].tag in counts && entries[i].count == counts[entries[i].tag]
    ensures forall h :: h in counts ==> Entry(h, counts[h]) in entries
  {
    entries := [];
    var keys := counts.Keys;
    while keys != {}
      invariant keys <= counts.Keys && |entries| + |keys| == |counts|
      invariant NoDuplicates(entries)
      invariant forall i :: 0 <= i < |entries| ==>
        entries[i].tag in counts && entries[i].tag !in keys && entries[i].count == counts[entries[i].tag]
      invariant forall h :: h in counts ==> h in keys || Entry(h, counts[h]) in entries
      decreases |keys|
    {
      var k :| k in keys;
      entries := entries + [Entry(k, counts[k])];
      keys := keys - {k};
    }
  }

  /** The tags of the February tweets, each once. */
  ghost function Distinct(s: seq<string>): set<string> {
    set h | h in s
  }

  /** The sort of the entry list by the comparator, stable as List.sort is. */
  method SortEntries(counts: map<string, int>, entries: seq<Entry>) returns (sorted: seq<Entry>)
    requires NoDuplicates(entries) && |entries| == |counts|
    requires forall i :: 0 <= i < |entries| ==> entries[i].tag in counts && entries[i].count == counts[entries[i].tag]
    ensures multiset(sorted) == multiset(entries) && |sorted| == |counts| && SortedBy(sorted, Precedes)
    ensures forall i :: 0 <= i < |sorted| ==> sorted[i].tag in counts && sorted[i].count == counts[sorted[i].tag]
    ensures forall h :: h in counts && Entry(h, counts[h]) in entries ==> Entry(h, counts[h]) in sorted
    ensures forall i, j :: 0 <= i < j < |sorted| ==> sorted[i].tag != sorted[j].tag
  {
    sorted := SortBy(entries, Precedes);
    PrecedesOrder();
    SortSorted(entries, Precedes);
    assert |sorted| == |multiset(sorted)| == |entries|;
    forall x ensures x in sorted <==> x in entries {
      assert x in multiset(sorted) <==> x in multiset(entries);
    }
    NoDuplicatesCount(entries);
    NoDuplicatesCount(sorted);
    forall i | 0 <= i < |sorted| ensures sorted[i].tag in counts && sorted[i].count == counts[sorted[i].tag] {
      assert sorted[i] in entries;
    }
    forall i, j | 0 <= i < j < |sorted| ensures sorted[i].tag != sorted[j].tag {
      assert sorted[i] in entries && sorted[j] in entries;
    }
  }

  /** A prefix of the entries sorted by Precedes: in order, with distinct tags, and every entry left out comes after all that were kept. */
  lemma TopPrefix(counts: map<string, int>, sorted: seq<Entry>, top: seq<Entry>)
    requires SortedBy(sorted, Precedes)
    requires forall i :: 0 <= i < |sorted| ==> sorted[i].tag in counts && sorted[i].count == counts[sorted[i].tag]
    requires forall h :: h in counts ==> Entry(h, counts[h]) in sorted
    requires forall i, j :: 0 <= i < j < |sorted| ==> sorted[i].tag != sorted[j].tag
    requires |top| <= |sorted| && top == sorted[..|top|]
    ensures forall i :: 0 <= i < |top| ==> top[i].tag in counts && top[i].count == counts[top[i].tag]
    ensures forall i, j :: 0 <= i < j < |top| ==> Precedes(top[i], top[j]) && top[i].tag != top[j].tag
    ensures forall h :: h in counts && (forall i :: 0 <= i < |top| ==> top[i].tag != h) ==>
      forall i :: 0 <= i < |top| ==> Precedes(top[i], Entry(h, counts[h]))
  {
    assert forall i :: 0 <= i < |top| ==> top[i] == sorted[i];
    forall h | h in counts && (forall i :: 0 <= i < |top| ==> top[i].tag != h)
      ensures forall i :: 0 <= i < |top| ==> Precedes(top[i], Entry(h, counts[h]))
    {
      var k :| 0 <= k < |sorted| && sorted[k] == Entry(h, counts[h]);
      assert k >= |top|;
    }
  }

  /** A map keyed by exactly the hashtags of all has one key per distinct hashtag. */
  lemma KeysDistinct(all: seq<string>, counts: map<string, int>)
    requires forall h :: h in counts <==> h in all
    ensures |counts| == |Distinct(all)|
  {
    assert counts.Keys == Distinct(all);
  }

  /** The first three of the sorted counts of all are the top three hashtags of all. */
  lemma TopOfCounts(all: seq<string>, counts: map<string, int>, sorted: seq<Entry>, top: seq<Entry>)
    requires forall h :: h in counts <==> h in all
    requires forall h :: h in counts ==> counts[h] == multiset(all)[h]
    requires |sorted| == |counts| && SortedBy(sorted, Precedes)
    requires forall i :: 0 <= i < |sorted| ==> sorted[i].tag in counts && sorted[i].count == counts[sorted[i].tag]
    requires forall h :: h in counts ==> Entry(h, counts[h]) in sorted
    requires forall i, j :: 0 <= i < j < |sorted| ==> sorted[i].tag != sorted[j].tag
    requires top == sorted[..if 3 < |sorted| then 3 else |sorted|]
    ensures |top| == if |Distinct(all)| < 3 then |Distinct(all)| else 3
    ensures forall i :: 0 <= i < |top| ==> top[i].tag in all && top[i].count == multiset(all)[top[i].tag]
    ensures forall i, j :: 0 <= i < j < |top| ==> Precedes(top[i], top[j]) && top[i].tag != top[j].tag
    ensures forall h :: h in all && (forall i :: 0 <= i < |top| ==> top[i].tag != h) ==>
      forall i :: 0 <= i < |top| ==> Precedes(top[i], Entry(h, multiset(all)[h]))
  {
    KeysDistinct(all, counts);
    TopPrefix(counts, sorted, top);
  }

  /**
   * The top three hashtags of February 2024 with their counts: the most
   * frequent first, ties broken by the greater tag; all of them when there
   * are fewer than three.
   */
  method FindTopTrendingHashtags(tweets: seq<Tweet>) returns (top: seq<Entry>)
    ensures |top| == if |Distinct(Counted(tweets))| < 3 then |Distinct(Counted(tweets))| else 3
    ensures forall i :: 0 <= i < |top| ==>
      top[i].tag in Counted(tweets) && top[i].count == multiset(Counted(tweets))[top[i].tag]
    ensures forall i, j :: 0 <= i < j < |top| ==> Precedes(top[i], top[j]) && top[i].tag != top[j].tag
    ensures forall h :: h in Counted(tweets) && (forall i :: 0 <= i < |top| ==> top[i].tag != h) ==>
      forall i :: 0 <= i < |top| ==> Precedes(top[i], Entry(h, multiset(Counted(tweets))[h]))
  {
    var counts := CountHashtags(tweets);
    var entries := EntryList(counts);
    var sorted := SortEntries(counts, entries);
    top := sorted[..if 3 < |sorted| then 3 else |sorted|];

    TopOfCounts(Counted(tweets), counts, sorted, top);
  }
}
