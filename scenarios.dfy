/** Sessions driven through the handlers, showing what their contracts alone
    let a caller conclude. Dates are strings here. */
module Scenarios {
  import opened MeetingOrganizer

  /** Adding the same topic twice keeps one row for it, with no votes. */
  method AddSameTopicTwice()
  {
    var o := new Organizer<string>();
    var first := o.AddTopic("Budget");
    var second := o.AddTopic("Budget");
    assert first == Added;
    assert second == AlreadyExists;
    assert o.topics == [TopicRow("Budget", 0)];
  }

  /** Two people free on the same date give one summary row with both names. */
  method TwoPeopleOneDate()
  {
    var o := new Organizer<string>();
    var r1 := o.SubmitAvailability(Some("2024-05-01"), "Alice");
    var r2 := o.SubmitAvailability(Some("2024-05-01"), "Bob");
    assert o.availability == [Entry("2024-05-01", "Alice"), Entry("2024-05-01", "Bob")];
    var rows := o.availability;
    var summary := Summarize(rows);
    assert summary != [] by {
      assert 0 < |rows|;
    }
    assert DateSet(rows) == {"2024-05-01"};
    SummaryOneRowPerDate(rows);
    assert |summary| == 1;
    assert summary[0].date == "2024-05-01";
    assert rows[..1] == [Entry("2024-05-01", "Alice")];
    assert rows[..1][..0] == [];
    assert NamesOn(rows[..1], "2024-05-01") == ["Alice"];
    assert NamesOn(rows, "2024-05-01") == ["Alice", "Bob"];
    assert summary[0].names == ["Alice", "Bob"];
    assert summary[0].count == 2;
  }

  /** A submission without a name or without a date changes nothing. */
  method IncompleteSubmissions()
  {
    var o := new Organizer<string>();
    var r1 := o.SubmitAvailability(Some("2024-05-01"), "");
    var r2 := o.SubmitAvailability(None, "Alice");
    assert r1 == MissingInput && r2 == MissingInput;
    assert o.availability == [];
  }

  /** Voting for the second of two topics ranks it first. */
  method VoteReordersRanking()
  {
    var o := new Organizer<string>();
    var a := o.AddTopic("A");
    var b := o.AddTopic("B");
    var voted := o.Vote(1);
    assert voted;
    assert o.topics[0] == TopicRow("A", 0) && o.topics[1] == TopicRow("B", 1);
    var rows := o.topics;
    assert rows == [TopicRow("A", 0), TopicRow("B", 1)];
    RankedPairFromContract(TopicRow("B", 1), TopicRow("A", 0), Ranked(rows));
    assert Ranked(rows) == [TopicRow("B", 1), TopicRow("A", 0)];
  }

  /** Any ordering of two rows with different votes, highest first, puts the
      row with more votes first; so the ranked view's contract fixes it. */
  lemma RankedPairFromContract(x: TopicRow, y: TopicRow, r: seq<TopicRow>)
    requires x.votes > y.votes
    requires ByVotesDescending(r) && multiset(r) == multiset([y, x])
    ensures r == [x, y]
  {
    SortedPermutationsSameVotes(r, [x, y]);
    assert r[0] in multiset([y, x]) && r[1] in multiset([y, x]);
  }
}
