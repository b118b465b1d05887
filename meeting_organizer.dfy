/** The meeting organizer's state: an availability table of (date, name) rows
    and a topic table of (topic, votes) rows, the handlers that change them,
    and the two views derived from them (the per-date summary and the ranking
    of topics by votes). Dates are opaque: only their equality matters. */
module MeetingOrganizer {

  datatype Option<T> = None | Some(value: T)

  /** One row of the availability table. */
  datatype Entry<D> = Entry(date: D, name: string)

  /** One row of the topic table. */
  datatype TopicRow = TopicRow(topic: string, votes: int)

  /** One row of the availability summary: a date, the names free on it, their number. */
  datatype Group<D> = Group(date: D, names: seq<string>, count: int)

  /** Which branch of the "Submit Availability" handler ran. */
  datatype SubmitOutcome = Submitted | MissingInput

  /** Which branch of the "Add Topic" handler ran. */
  datatype AddOutcome = Added | EmptyTopic | AlreadyExists

  // ---------------------------------------------------------------------------
  // Availability summary (group by date)
  // ---------------------------------------------------------------------------

  /** Some row of the table is on date d. */
  predicate HasDate<D(==)>(rows: seq<Entry<D>>, d: D)
  {
    exists k :: 0 <= k < |rows| && rows[k].date == d
  }

  /** The names of the rows on date d, in table order. */
  function NamesOn<D(==)>(rows: seq<Entry<D>>, d: D): seq<string>
  {
    if rows == [] then []
    else
      var front, last := rows[..|rows| - 1], rows[|rows| - 1];
      NamesOn(front, d) + (if last.date == d then [last.name] else [])
  }

  /** NamesOn keeps exactly the names of the rows on date d, each as often as it occurs there. */
  lemma {:induction false} NamesOnCounts<D>(rows: seq<Entry<D>>, d: D, n: string)
    ensures multiset(NamesOn(rows, d))[n] == multiset(rows)[Entry(d, n)]
  {
    if rows != [] {
      var front, last := rows[..|rows| - 1], rows[|rows| - 1];
      assert rows == front + [last];
      NamesOnCounts(front, d, n);
    }
  }

  /** The names on date d are non-empty exactly when some row is on d. */
  lemma {:induction false} NamesOnNonEmpty<D>(rows: seq<Entry<D>>, d: D)
    ensures NamesOn(rows, d) != [] <==> HasDate(rows, d)
  {
    if rows != [] {
      var front, last := rows[..|rows| - 1], rows[|rows| - 1];
      NamesOnNonEmpty(front, d);
      if HasDate(rows, d) && last.date != d {
        var k :| 0 <= k < |rows| && rows[k].date == d;
        assert front[k].date == d;
      }
    }
  }

  /** The distinct dates of the table, each once, in order of first appearance. */
  function Dates<D(==)>(rows: seq<Entry<D>>): (ds: seq<D>)
    ensures forall i, j :: 0 <= i < j < |ds| ==> ds[i] != ds[j]
    ensures forall i :: 0 <= i < |ds| ==> HasDate(rows, ds[i])
    ensures forall k :: 0 <= k < |rows| ==> rows[k].date in ds
  {
    if rows == [] then []
    else
      var front, last := rows[..|rows| - 1], rows[|rows| - 1];
      var earlier := Dates(front);
      assert forall i :: 0 <= i < |earlier| ==> HasDate(rows, earlier[i]) by {
        forall i | 0 <= i < |earlier| ensures HasDate(rows, earlier[i]) {
          var k :| 0 <= k < |front| && front[k].date == earlier[i];
          assert rows[k].date == earlier[i];
        }
      }
      assert forall k :: 0 <= k < |front| ==> rows[k] == front[k];
      if last.date in earlier then earlier else earlier + [last.date]
  }

  /** One summary row per date of ds. */
  function GroupsFor<D(==)>(rows: seq<Entry<D>>, ds: seq<D>): seq<Group<D>>
  {
    if ds == [] then []
    else
      var d := ds[|ds| - 1];
      GroupsFor(rows, ds[..|ds| - 1]) + [Group(d, NamesOn(rows, d), |NamesOn(rows, d)|)]
  }

  lemma {:induction false} GroupsForShape<D>(rows: seq<Entry<D>>, ds: seq<D>)
    ensures |GroupsFor(rows, ds)| == |ds|
    ensures forall i :: 0 <= i < |ds| ==> GroupsFor(rows, ds)[i] == Group(ds[i], NamesOn(rows, ds[i]), |NamesOn(rows, ds[i])|)
  {
    if ds != [] {
      GroupsForShape(rows, ds[..|ds| - 1]);
    }
  }

  /** The availability summary: the table grouped by date, each date with the
      list of names on it and its count. */
  function Summarize<D(==)>(rows: seq<Entry<D>>): (summary: seq<Group<D>>)
    ensures forall i, j :: 0 <= i < j < |summary| ==> summary[i].date != summary[j].date
    ensures forall i :: 0 <= i < |summary| ==> HasDate(rows, summary[i].date)
    ensures forall k :: 0 <= k < |rows| ==> exists i :: 0 <= i < |summary| && summary[i].date == rows[k].date
    ensures forall i :: 0 <= i < |summary| ==>
              summary[i].names == NamesOn(rows, summary[i].date) && summary[i].count == |summary[i].names| > 0
  {
    var ds := Dates(rows);
    GroupsForShape(rows, ds);
    forall i | 0 <= i < |ds| ensures NamesOn(rows, ds[i]) != [] {
      NamesOnNonEmpty(rows, ds[i]);
    }
    forall k | 0 <= k < |rows| ensures rows[k].date in ds {
      assert HasDate(rows, rows[k].date);
    }
    GroupsFor(rows, ds)
  }

  /** The set of dates that occur in the table. */
  function DateSet<D(==)>(rows: seq<Entry<D>>): set<D>
  {
    set k | 0 <= k < |rows| :: rows[k].date
  }

  /** The summary has exactly one row per distinct date of the table. */
  lemma SummaryOneRowPerDate<D>(rows: seq<Entry<D>>)
    ensures |Summarize(rows)| == |DateSet(rows)|
  {
    var summary := Summarize(rows);
    GroupDatesCount(summary);
    var shown := set i | 0 <= i < |summary| :: summary[i].date;
    forall d | d in DateSet(rows) ensures d in shown {
      var k :| 0 <= k < |rows| && rows[k].date == d;
      var i :| 0 <= i < |summary| && summary[i].date == rows[k].date;
    }
    forall d | d in shown ensures d in DateSet(rows) {
      var i :| 0 <= i < |summary| && summary[i].date == d;
      assert HasDate(rows, d);
    }
    assert shown == DateSet(rows);
  }

  /** Rows with pairwise distinct dates show as many dates as there are rows. */
  lemma {:induction false} GroupDatesCount<D>(groups: seq<Group<D>>)
    requires forall i, j :: 0 <= i < j < |groups| ==> groups[i].date != groups[j].date
    ensures |set i | 0 <= i < |groups| :: groups[i].date| == |groups|
  {
    if groups != [] {
      var front := groups[..|groups| - 1];
      var d := groups[|groups| - 1].date;
      GroupDatesCount(front);
      var before := set i | 0 <= i < |front| :: front[i].date;
      var after := set i | 0 <= i < |groups| :: groups[i].date;
      assert after == before + {d} by {
        forall e | e in after ensures e in before + {d} {
          var i :| 0 <= i < |groups| && groups[i].date == e;
          if i < |front| {
            assert front[i].date == e;
          }
        }
        forall e | e in before ensures e in after {
          var i :| 0 <= i < |front| && front[i].date == e;
          assert groups[i].date == e;
        }
        assert groups[|groups| - 1].date == d;
      }
      assert d !in before;
    }
  }

  /** The sum of the Count column of a summary. */
  function CountSum<D>(summary: seq<Group<D>>): int
  {
    if summary == [] then 0 else CountSum(summary[..|summary| - 1]) + summary[|summary| - 1].count
  }

  /** Helper: appending a summary row adds its Count. */
  lemma CountSumSnoc<D>(summary: seq<Group<D>>, g: Group<D>)
    ensures CountSum(summary + [g]) == CountSum(summary) + g.count
  {
  }

  /** Adding one row on date e.date adds one to the total over ds exactly when ds holds e.date. */
  lemma {:induction false} CountSumAppendRow<D>(rows: seq<Entry<D>>, e: Entry<D>, ds: seq<D>)
    requires forall i, j :: 0 <= i < j < |ds| ==> ds[i] != ds[j]
    ensures CountSum(GroupsFor(rows + [e], ds)) == CountSum(GroupsFor(rows, ds)) + (if e.date in ds then 1 else 0)
  {
    if ds != [] {
      var front, d := ds[..|ds| - 1], ds[|ds| - 1];
      assert (rows + [e])[..|rows|] == rows;
      CountSumAppendRow(rows, e, front);
      CountSumSnoc(GroupsFor(rows + [e], front), Group(d, NamesOn(rows + [e], d), |NamesOn(rows + [e], d)|));
      CountSumSnoc(GroupsFor(rows, front), Group(d, NamesOn(rows, d), |NamesOn(rows, d)|));
      assert ds == front + [d];
      assert e.date == d ==> e.date !in front;
    }
  }

  /** The Counts of the summary add up to the number of availability rows. */
  lemma SummaryCountsTotal<D>(rows: seq<Entry<D>>)
    ensures CountSum(Summarize(rows)) == |rows|
  {
    CountsOverDatesTotal(rows);
  }

  lemma {:induction false} CountsOverDatesTotal<D>(rows: seq<Entry<D>>)
    ensures CountSum(GroupsFor(rows, Dates(rows))) == |rows|
  {
    if rows != [] {
      var front, last := rows[..|rows| - 1], rows[|rows| - 1];
      assert rows == front + [last];
      CountsOverDatesTotal(front);
      var earlier := Dates(front);
      CountSumAppendRow(front, last, earlier);
      if last.date !in earlier {
        NamesOnNonEmpty(front, last.date);
        var ds := earlier + [last.date];
        assert Dates(rows) == ds;
        assert ds[..|ds| - 1] == earlier;
        assert NamesOn(rows, last.date) == [last.name];
        assert GroupsFor(rows, ds) == GroupsFor(rows, earlier) + [Group(last.date, [last.name], 1)];
        CountSumSnoc(GroupsFor(rows, earlier), Group(last.date, [last.name], 1));
      } else {
        assert Dates(rows) == earlier;
      }
    }
  }

  // ---------------------------------------------------------------------------
  // Topic table: well-formedness and the ranked view
  // ---------------------------------------------------------------------------

  /** The Topic column. */
  function TopicNames(rows: seq<TopicRow>): (names: seq<string>)
    ensures |names| == |rows|
    ensures forall k :: 0 <= k < |rows| ==> names[k] == rows[k].topic
  {
    if rows == [] then [] else [rows[0].topic] + TopicNames(rows[1..])
  }

  predicate TopicsDistinct(rows: seq<TopicRow>)
  {
    forall i, j :: 0 <= i < j < |rows| ==> rows[i].topic != rows[j].topic
  }

  /** What the handlers keep true of the topic table: topics are non-empty and
      pairwise distinct, and votes are never negative. */
  predicate TopicsWellFormed(rows: seq<TopicRow>)
  {
    TopicsDistinct(rows) &&
    forall k :: 0 <= k < |rows| ==> rows[k].topic != "" && rows[k].votes >= 0
  }

  predicate ByVotesDescending(rows: seq<TopicRow>)
  {
    forall i, j :: 0 <= i < j < |rows| ==> rows[i].votes >= rows[j].votes
  }

  /** Inserts x into a table already ordered by votes, highest first. */
  function Insert(x: TopicRow, sorted: seq<TopicRow>): (r: seq<TopicRow>)
    requires ByVotesDescending(sorted)
    ensures ByVotesDescending(r)
    ensures multiset(r) == multiset(sorted) + multiset{x}
  {
    if sorted == [] || x.votes >= sorted[0].votes then [x] + sorted
    else
      var rest := Insert(x, sorted[1..]);
      assert sorted == [sorted[0]] + sorted[1..];
      InsertBehindHead(x, sorted, rest);
      [sorted[0]] + rest
  }

  /** When x goes behind the head of sorted, the head still leads the result. */
  lemma InsertBehindHead(x: TopicRow, sorted: seq<TopicRow>, rest: seq<TopicRow>)
    requires ByVotesDescending(sorted) && sorted != [] && x.votes < sorted[0].votes
    requires ByVotesDescending(rest)
    requires multiset(rest) == multiset(sorted[1..]) + multiset{x}
    ensures ByVotesDescending([sorted[0]] + rest)
  {
    forall k | 0 <= k < |rest| ensures sorted[0].votes >= rest[k].votes {
      assert rest[k] in multiset(rest);
      if rest[k] != x {
        assert rest[k] in multiset(sorted[1..]);
        var m :| 0 <= m < |sorted| - 1 && sorted[1..][m] == rest[k];
        assert sorted[m + 1] == rest[k];
      }
    }
  }

  /** The topic table sorted by votes, highest first. The order among rows
      with equal votes is not part of the contract. */
  function Ranked(rows: seq<TopicRow>): (r: seq<TopicRow>)
    ensures ByVotesDescending(r)
    ensures multiset(r) == multiset(rows)
  {
    if rows == [] then []
    else
      assert rows == [rows[0]] + rows[1..];
      Insert(rows[0], Ranked(rows[1..]))
  }

  /** Two tables show the same Votes column, row by row. */
  predicate SameVotes(a: seq<TopicRow>, b: seq<TopicRow>)
  {
    |a| == |b| && forall k :: 0 <= k < |a| ==> a[k].votes == b[k].votes
  }

  lemma WithoutOne<T>(s: seq<T>, j: int)
    requires 0 <= j < |s|
    ensures multiset(s[..j] + s[j + 1..]) == multiset(s) - multiset{s[j]}
  {
    assert s == s[..j] + [s[j]] + s[j + 1..];
  }

  /** Taking the same row out of two tables that hold the same rows leaves
      two tables that hold the same rows. */
  lemma RemoveMatching(a: seq<TopicRow>, b: seq<TopicRow>, i: int)
    requires multiset(a) == multiset(b)
    requires 0 <= i < |a| && b != [] && a[i] == b[0]
    ensures multiset(a[..i] + a[i + 1..]) == multiset(b[1..])
  {
    var x := b[0];
    WithoutOne(a, i);
    assert b == [x] + b[1..];
    assert multiset(b) == multiset{x} + multiset(b[1..]);
    assert multiset(b[1..]) == multiset(b) - multiset{x};
  }

  /** Taking one row out of an ordered table leaves it ordered. */
  lemma SortedWithoutOne(s: seq<TopicRow>, j: int)
    requires ByVotesDescending(s) && 0 <= j < |s|
    ensures ByVotesDescending(s[..j] + s[j + 1..])
  {
    var t := s[..j] + s[j + 1..];
    forall p, q | 0 <= p < q < |t| ensures t[p].votes >= t[q].votes {
      assert t[p] == s[if p < j then p else p + 1];
      assert t[q] == s[if q < j then q else q + 1];
    }
  }

  /** In an ordered table the first row has the most votes. */
  lemma HeadIsMax(s: seq<TopicRow>, x: TopicRow)
    requires ByVotesDescending(s) && x in multiset(s)
    ensures s[0].votes >= x.votes
  {
    var i :| 0 <= i < |s| && s[i] == x;
  }

  /** Two orderings of the same rows by votes, highest first, have the same
      Votes column: they can differ only in the order of tied rows. */
  lemma {:induction false} SortedPermutationsSameVotes(a: seq<TopicRow>, b: seq<TopicRow>)
    requires ByVotesDescending(a) && ByVotesDescending(b)
    requires multiset(a) == multiset(b)
    ensures SameVotes(a, b)
    decreases |b|
  {
    if a == [] {
      assert |b| == |multiset(b)| == 0;
    } else {
      assert b != [] by {
        assert |b| == |multiset(b)| == |multiset(a)| == |a|;
      }
      HeadIsMax(a, b[0]);
      HeadIsMax(b, a[0]);
      var i :| 0 <= i < |a| && a[i] == b[0];
      var a', b' := a[..i] + a[i + 1..], b[1..];
      RemoveMatching(a, b, i);
      SortedWithoutOne(a, i);
      SortedWithoutOne(b, 0);
      SortedPermutationsSameVotes(a', b');
      SameVotesAfterHead(a, b, i);
    }
  }

  /** If b's head is a's row i and has a's top votes, and the rest of b matches
      a without row i, then b matches a. */
  lemma SameVotesAfterHead(a: seq<TopicRow>, b: seq<TopicRow>, i: int)
    requires ByVotesDescending(a) && 0 <= i < |a| && b != []
    requires a[i] == b[0] && a[0].votes == b[0].votes
    requires SameVotes(a[..i] + a[i + 1..], b[1..])
    ensures SameVotes(a, b)
  {
    var a' := a[..i] + a[i + 1..];
    forall k | 0 <= k < |a| ensures a[k].votes == b[k].votes {
      if 0 < k <= i {
        assert a'[k - 1] == a[k - 1];
        assert b[1..][k - 1] == b[k];
      } else if i < k {
        assert a'[k - 1] == a[k];
        assert b[1..][k - 1] == b[k];
      }
    }
  }

  /** The ranked view is determined up to the order of tied rows: every
      ordering of the same rows by votes, highest first, shows the same Votes
      column as the ranked view. */
  lemma RankedUniqueUpToTies(rows: seq<TopicRow>, r: seq<TopicRow>)
    requires ByVotesDescending(r)
    requires multiset(r) == multiset(rows)
    ensures SameVotes(r, Ranked(rows))
  {
    SortedPermutationsSameVotes(r, Ranked(rows));
  }

  /** Ranking a table already in ranked order leaves its Votes column as it is. */
  lemma RankedOfSorted(rows: seq<TopicRow>)
    requires ByVotesDescending(rows)
    ensures SameVotes(Ranked(rows), rows)
  {
    RankedUniqueUpToTies(rows, rows);
  }

  /** Ranking the ranked view again shows the same rows with the same Votes column. */
  lemma RankedIdempotent(rows: seq<TopicRow>)
    ensures multiset(Ranked(Ranked(rows))) == multiset(Ranked(rows))
    ensures SameVotes(Ranked(Ranked(rows)), Ranked(rows))
  {
    RankedOfSorted(Ranked(rows));
  }

  /** The ranked view of a well-formed table is well-formed: it shows the same
      distinct, non-empty topics with the same non-negative vote counts. */
  lemma RankedWellFormed(rows: seq<TopicRow>)
    requires TopicsWellFormed(rows)
    ensures TopicsWellFormed(Ranked(rows))
  {
    PermutationKeepsWellFormed(rows, Ranked(rows));
  }

  lemma PermutationKeepsWellFormed(rows: seq<TopicRow>, r: seq<TopicRow>)
    requires TopicsWellFormed(rows)
    requires multiset(r) == multiset(rows)
    ensures TopicsWellFormed(r)
  {
    forall k | 0 <= k < |r| ensures r[k] in rows {
      assert r[k] in multiset(r);
    }
    forall i, j | 0 <= i < j < |r| ensures r[i].topic != r[j].topic {
      if r[i].topic == r[j].topic {
        var a :| 0 <= a < |rows| && rows[a] == r[i];
        var b :| 0 <= b < |rows| && rows[b] == r[j];
        if a == b {
          OccursTwice(r, i, j);
          DistinctTopicsOnce(rows, a);
          assert false;
        }
      }
    }
  }

  lemma OccursTwice<T>(s: seq<T>, i: int, j: int)
    requires 0 <= i < j < |s| && s[i] == s[j]
    ensures multiset(s)[s[i]] >= 2
  {
    assert s == s[..j] + s[j..];
    assert s[i] == s[..j][i];
    assert s[j] == s[j..][0];
    assert multiset(s) == multiset(s[..j]) + multiset(s[j..]);
  }

  /** In a table with distinct topics every row occurs once. */
  lemma DistinctTopicsOnce(rows: seq<TopicRow>, a: int)
    requires TopicsDistinct(rows)
    requires 0 <= a < |rows|
    ensures multiset(rows)[rows[a]] == 1
  {
    var x := rows[a];
    assert rows == rows[..a] + [x] + rows[a + 1..];
  }

  // ---------------------------------------------------------------------------
  // The session state and its handlers
  // ---------------------------------------------------------------------------

  /** The two tables that live for the whole session. */
  class Organizer<D(==)> {
    var availability: seq<Entry<D>>
    var topics: seq<TopicRow>

    ghost predicate Valid()
      reads this
    {
      (forall k :: 0 <= k < |availability| ==> availability[k].name != "") &&
      TopicsWellFormed(topics)
    }

    /** Both tables start empty. */
    constructor ()
      ensures Valid()
      ensures availability == [] && topics == []
    {
      availability := [];
      topics := [];
    }

    /** The "Submit Availability" button: appends (date, name) when both are
        given, duplicates included, and otherwise changes nothing. */
    method SubmitAvailability(selected: Option<D>, name: string) returns (outcome: SubmitOutcome)
      requires Valid()
      modifies this
      ensures Valid()
      ensures outcome == Submitted <==> name != "" && selected.Some?
      ensures outcome == Submitted ==> availability == old(availability) + [Entry(selected.value, name)]
      ensures outcome == MissingInput ==> availability == old(availability)
      ensures topics == old(topics)
    {
      if name != "" && selected.Some? {
        availability := availability + [Entry(selected.value, name)];
        outcome := Submitted;
      } else {
        outcome := MissingInput;
      }
    }

    /** The "Add Topic" button: refuses an empty topic, warns about one already
        in the table (exact match), and otherwise appends it with no votes. */
    method AddTopic(topic: string) returns (outcome: AddOutcome)
      requires Valid()
      modifies this
      ensures Valid()
      ensures outcome == EmptyTopic <==> topic == ""
      ensures outcome == AlreadyExists <==> topic != "" && topic in TopicNames(old(topics))
      ensures outcome == Added ==> topics == old(topics) + [TopicRow(topic, 0)]
      ensures outcome != Added ==> topics == old(topics)
      ensures availability == old(availability)
    {
      if topic != "" {
        if topic !in TopicNames(topics) {
          topics := topics + [TopicRow(topic, 0)];
          outcome := Added;
        } else {
          outcome := AlreadyExists;
        }
      } else {
        outcome := EmptyTopic;
      }
    }

    /** One pass of the voting loop: each row has a button, and the row whose
        button was clicked gets one more vote. An index with no row matches no
        button. */
    method Vote(clicked: nat) returns (voted: bool)
      requires Valid()
      modifies this
      ensures Valid()
      ensures voted <==> clicked < |old(topics)|
      ensures |topics| == |old(topics)|
      ensures forall k :: 0 <= k < |topics| ==>
                topics[k].topic == old(topics)[k].topic &&
                topics[k].votes == old(topics)[k].votes + (if k == clicked then 1 else 0)
      ensures availability == old(availability)
    {
      voted := false;
      var n := |topics|;
      for index := 0 to n
        invariant |topics| == n
        invariant voted <==> clicked < index
        invariant forall k :: 0 <= k < n ==>
                    topics[k].topic == old(topics)[k].topic &&
                    topics[k].votes == old(topics)[k].votes + (if k == clicked && k < index then 1 else 0)
        invariant availability == old(availability)
      {
        if index == clicked {
          topics := topics[index := topics[index].(votes := topics[index].votes + 1)];
          voted := true;
        }
      }
    }
  }
}
