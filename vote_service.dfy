/**
 * The vote service: a ledger of votes that only grows, the lookup the
 * handlers use to refuse a second vote, and the live tally of a poll.
 */
module VoteService {
  import opened Schema

  /** Some recorded vote carries this poll id and this user id. */
  predicate Voted(votes: seq<Vote>, pollId: nat, userId: nat) {
    exists i :: 0 <= i < |votes| && votes[i].pollId == pollId && votes[i].userId == userId
  }

  /** No user holds two votes under the same poll id. */
  predicate NoDoubleVotes(votes: seq<Vote>) {
    forall i, j :: 0 <= i < j < |votes| && votes[i].pollId == votes[j].pollId ==> votes[i].userId != votes[j].userId
  }

  /** The vote table. */
  class VoteLedger {
    var votes: seq<Vote>

    constructor ()
      ensures votes == []
    {
      votes := [];
    }

    /** Inserts one vote, without looking at what is already recorded. */
    method SubmitVote(pollId: nat, userId: nat, optionId: nat)
      modifies this
      ensures votes == old(votes) + [Vote(pollId, userId, optionId)]
      ensures Voted(votes, pollId, userId)
    {
      votes := votes + [Vote(pollId, userId, optionId)];
      assert votes[|votes| - 1] == Vote(pollId, userId, optionId);
    }

    /** Looks for the first vote with this poll id and user id. */
    method HasVoted(pollId: nat, userId: nat) returns (found: bool)
      ensures found <==> Voted(votes, pollId, userId)
    {
      var i := 0;
      found := false;
      while i < |votes| && !found
        invariant 0 <= i <= |votes|
        invariant found ==> Voted(votes, pollId, userId)
        invariant !found ==> forall k :: 0 <= k < i ==> !(votes[k].pollId == pollId && votes[k].userId == userId)
      {
        found := votes[i].pollId == pollId && votes[i].userId == userId;
        i := i + 1;
      }
    }
  }

  /** A vote that nobody has cast yet under its poll id keeps the ledger free of double votes. */
  lemma FreshVoteKeepsNoDoubleVotes(votes: seq<Vote>, v: Vote)
    requires NoDoubleVotes(votes)
    requires !Voted(votes, v.pollId, v.userId)
    ensures NoDoubleVotes(votes + [v])
  {
    var w := votes + [v];
    forall i, j | 0 <= i < j < |w| && w[i].pollId == w[j].pollId
      ensures w[i].userId != w[j].userId
    {
      if j == |votes| {
        assert w[i] == votes[i];
      }
    }
  }

  /** The votes attached to an option: those whose optionId is the option's id. */
  function CountVotes(votes: seq<Vote>, optionId: nat): (n: nat)
    ensures n <= |votes|
  {
    if votes == [] then 0
    else CountVotes(votes[..|votes| - 1], optionId) + (if votes[|votes| - 1].optionId == optionId then 1 else 0)
  }

  lemma CountVotesAppend(votes: seq<Vote>, v: Vote, optionId: nat)
    ensures CountVotes(votes + [v], optionId) == CountVotes(votes, optionId) + (if v.optionId == optionId then 1 else 0)
  {
    assert (votes + [v])[..|votes|] == votes;
  }

  /** The options of a poll, in table order. */
  function OptionsOf(options: seq<PollOption>, pollId: nat): (r: seq<PollOption>)
    ensures |r| <= |options|
  {
    if options == [] then []
    else
      var last := options[|options| - 1];
      OptionsOf(options[..|options| - 1], pollId) + (if last.pollId == pollId then [last] else [])
  }

  /** The options of a poll are exactly the option rows that carry its id. */
  lemma {:induction false} OptionsOfMembers(options: seq<PollOption>, pollId: nat, o: PollOption)
    ensures o in OptionsOf(options, pollId) <==> o in options && o.pollId == pollId
  {
    if options != [] {
      var init := options[..|options| - 1];
      OptionsOfMembers(init, pollId, o);
      assert options == init + [options[|options| - 1]];
    }
  }

  lemma {:induction false} OptionsOfAppend(a: seq<PollOption>, b: seq<PollOption>, pollId: nat)
    ensures OptionsOf(a + b, pollId) == OptionsOf(a, pollId) + OptionsOf(b, pollId)
  {
    if b != [] {
      var b' := b[..|b| - 1];
      assert (a + b)[..|a + b| - 1] == a + b';
      OptionsOfAppend(a, b', pollId);
    } else {
      assert a + b == a;
    }
  }

  /** The `reduce` of the tally: the votes of all the given options together. */
  function TotalVotes(ps: seq<PollOption>, votes: seq<Vote>): nat {
    if ps == [] then 0 else TotalVotes(ps[..|ps| - 1], votes) + CountVotes(votes, ps[|ps| - 1].id)
  }

  /** An option's share of the total, in percent; 0 when nobody has voted. */
  function Percentage(count: nat, total: nat): real {
    if total == 0 then 0.0 else (count as real / total as real) * 100.0
  }

  /**
   * The share is 0 with no votes; otherwise it is the count scaled so that
   * share × total = count × 100, between 0 and 100 when the count is part
   * of the total.
   */
  lemma PercentageSpec(count: nat, total: nat)
    ensures total == 0 ==> Percentage(count, total) == 0.0
    ensures total > 0 ==> Percentage(count, total) * (total as real) == (count as real) * 100.0
    ensures 0.0 <= Percentage(count, total)
    ensures count <= total ==> Percentage(count, total) <= 100.0
  {
    if total > 0 {
      var q := count as real / total as real;
      assert q * (total as real) == count as real;
      assert 0.0 <= q;
      if count <= total {
        assert q <= 1.0;
      }
    }
  }

  /** With no votes at all, no option has any. */
  lemma {:induction false} TotalVotesNoVotes(ps: seq<PollOption>)
    ensures TotalVotes(ps, []) == 0
  {
    if ps != [] {
      TotalVotesNoVotes(ps[..|ps| - 1]);
    }
  }

  /**
   * With distinct option ids, one more vote raises the total by one when it
   * names one of the options and leaves it unchanged otherwise.
   */
  lemma {:induction false} TotalVotesNewVote(ps: seq<PollOption>, votes: seq<Vote>, v: Vote)
    requires UniqueOptionIds(ps)
    ensures TotalVotes(ps, votes + [v]) ==
      TotalVotes(ps, votes) + (if exists i :: 0 <= i < |ps| && ps[i].id == v.optionId then 1 else 0)
  {
    if ps != [] {
      var init := ps[..|ps| - 1];
      var last := ps[|ps| - 1];
      assert UniqueOptionIds(init) by {
        forall i, j | 0 <= i < j < |init| ensures init[i].id != init[j].id {
          assert init[i] == ps[i] && init[j] == ps[j];
        }
      }
      TotalVotesNewVote(init, votes, v);
      CountVotesAppend(votes, v, last.id);
      if exists i :: 0 <= i < |ps| && ps[i].id == v.optionId {
        var i :| 0 <= i < |ps| && ps[i].id == v.optionId;
        if i < |init| {
          assert init[i] == ps[i];
          assert last.id != v.optionId;
        } else {
          forall k | 0 <= k < |init| ensures init[k].id != v.optionId {
            assert init[k] == ps[k];
          }
        }
      } else {
        forall k | 0 <= k < |init| ensures init[k].id != v.optionId {
          assert init[k] == ps[k];
        }
      }
    }
  }

  /** With distinct option ids the total never exceeds the number of votes cast. */
  lemma {:induction false} TotalVotesAtMostVotes(ps: seq<PollOption>, votes: seq<Vote>)
    requires UniqueOptionIds(ps)
    ensures TotalVotes(ps, votes) <= |votes|
  {
    if votes == [] {
      TotalVotesNoVotes(ps);
    } else {
      var init := votes[..|votes| - 1];
      TotalVotesAtMostVotes(ps, init);
      TotalVotesNewVote(ps, init, votes[|votes| - 1]);
      assert init + [votes[|votes| - 1]] == votes;
    }
  }

  /** The `map` of the tally: one row per option in `ps`, with `total` as the denominator. */
  function Rows(ps: seq<PollOption>, votes: seq<Vote>, total: nat): (rows: seq<ResultRow>)
    ensures |rows| == |ps|
    ensures forall i :: 0 <= i < |ps| ==>
      rows[i] == ResultRow(ps[i].id, CountVotes(votes, ps[i].id), Percentage(CountVotes(votes, ps[i].id), total))
  {
    if ps == [] then []
    else
      var o := ps[|ps| - 1];
      Rows(ps[..|ps| - 1], votes, total) + [ResultRow(o.id, CountVotes(votes, o.id), Percentage(CountVotes(votes, o.id), total))]
  }

  /** The live results of a poll: one row per option of that poll, in option order. */
  function CalculateResults(options: seq<PollOption>, votes: seq<Vote>, pollId: nat): (rows: seq<ResultRow>)
    ensures |rows| == |OptionsOf(options, pollId)|
    ensures forall i :: 0 <= i < |rows| ==>
      rows[i].optionId == OptionsOf(options, pollId)[i].id &&
      rows[i].votes == CountVotes(votes, OptionsOf(options, pollId)[i].id)
  {
    var ps := OptionsOf(options, pollId);
    Rows(ps, votes, TotalVotes(ps, votes))
  }

  function SumVotes(rows: seq<ResultRow>): nat {
    if rows == [] then 0 else SumVotes(rows[..|rows| - 1]) + rows[|rows| - 1].votes
  }

  function SumPercentages(rows: seq<ResultRow>): real {
    if rows == [] then 0.0 else SumPercentages(rows[..|rows| - 1]) + rows[|rows| - 1].percentage
  }

  lemma {:induction false} RowsSumVotes(ps: seq<PollOption>, votes: seq<Vote>, total: nat)
    ensures SumVotes(Rows(ps, votes, total)) == TotalVotes(ps, votes)
  {
    if ps != [] {
      var rows := Rows(ps, votes, total);
      assert rows[..|rows| - 1] == Rows(ps[..|ps| - 1], votes, total);
      RowsSumVotes(ps[..|ps| - 1], votes, total);
    }
  }

  lemma {:induction false} RowsSumPercentages(ps: seq<PollOption>, votes: seq<Vote>, total: nat)
    requires total > 0
    ensures SumPercentages(Rows(ps, votes, total)) == (TotalVotes(ps, votes) as real / total as real) * 100.0
  {
    if ps != [] {
      var rows := Rows(ps, votes, total);
      var ps' := ps[..|ps| - 1];
      assert rows[..|rows| - 1] == Rows(ps', votes, total);
      RowsSumPercentages(ps', votes, total);
      SharesAdd(TotalVotes(ps', votes) as real, CountVotes(votes, ps[|ps| - 1].id) as real, total as real);
    }
  }

  lemma SharesAdd(a: real, c: real, t: real)
    requires t > 0.0
    ensures (a / t) * 100.0 + (c / t) * 100.0 == ((a + c) / t) * 100.0
  {
    var x, y := a / t, c / t;
    assert x * t == a && y * t == c;
    assert (x + y) * t == a + c;
  }

  lemma ShareBounded(c: real, t: real)
    requires 0.0 <= c <= t && t > 0.0
    ensures 0.0 <= (c / t) * 100.0 <= 100.0
  {
    var x := c / t;
    assert x * t == c;
  }

  lemma {:induction false} CountAtMostTotal(ps: seq<PollOption>, votes: seq<Vote>, i: nat)
    requires i < |ps|
    ensures CountVotes(votes, ps[i].id) <= TotalVotes(ps, votes)
  {
    if i < |ps| - 1 {
      CountAtMostTotal(ps[..|ps| - 1], votes, i);
    }
  }

  /** `totalVotes` is the sum of the `votes` column of the results. */
  lemma ResultsTotal(options: seq<PollOption>, votes: seq<Vote>, pollId: nat)
    ensures SumVotes(CalculateResults(options, votes, pollId)) == TotalVotes(OptionsOf(options, pollId), votes)
  {
    var ps := OptionsOf(options, pollId);
    RowsSumVotes(ps, votes, TotalVotes(ps, votes));
  }

  /** With no votes on the poll's options every percentage is 0. */
  lemma ResultsNoVotes(options: seq<PollOption>, votes: seq<Vote>, pollId: nat)
    requires TotalVotes(OptionsOf(options, pollId), votes) == 0
    ensures forall r :: r in CalculateResults(options, votes, pollId) ==> r.percentage == 0.0
  {
  }

  /** With some votes every percentage lies in [0, 100]. */
  lemma ResultsPercentageBounds(options: seq<PollOption>, votes: seq<Vote>, pollId: nat)
    requires TotalVotes(OptionsOf(options, pollId), votes) > 0
    ensures forall r :: r in CalculateResults(options, votes, pollId) ==> 0.0 <= r.percentage <= 100.0
  {
    var ps := OptionsOf(options, pollId);
    var total := TotalVotes(ps, votes);
    var rows := Rows(ps, votes, total);
    forall i | 0 <= i < |rows|
      ensures 0.0 <= rows[i].percentage <= 100.0
    {
      CountAtMostTotal(ps, votes, i);
      ShareBounded(CountVotes(votes, ps[i].id) as real, total as real);
    }
  }

  /** With some votes the percentages sum to exactly 100. */
  lemma ResultsPercentageSum(options: seq<PollOption>, votes: seq<Vote>, pollId: nat)
    requires TotalVotes(OptionsOf(options, pollId), votes) > 0
    ensures SumPercentages(CalculateResults(options, votes, pollId)) == 100.0
  {
    var ps := OptionsOf(options, pollId);
    var total := TotalVotes(ps, votes);
    assert CalculateResults(options, votes, pollId) == Rows(ps, votes, total);
    RowsSumPercentages(ps, votes, total);
    WholeIsHundred(total as real);
  }

  lemma WholeIsHundred(t: real)
    requires t > 0.0
    ensures (t / t) * 100.0 == 100.0
  {
    var x := t / t;
    assert x * t == t;
  }

  /** A vote for an option that is not one of the poll's options leaves the poll's results as they were. */
  lemma ResultsIgnoreForeignVote(options: seq<PollOption>, votes: seq<Vote>, v: Vote, pollId: nat)
    requires forall o :: o in OptionsOf(options, pollId) ==> o.id != v.optionId
    ensures CalculateResults(options, votes + [v], pollId) == CalculateResults(options, votes, pollId)
  {
    var ps := OptionsOf(options, pollId);
    forall o | o in ps
      ensures CountVotes(votes + [v], o.id) == CountVotes(votes, o.id)
    {
      CountVotesAppend(votes, v, o.id);
    }
    SameCountsSameResults(ps, votes, votes + [v]);
  }

  /** Results depend on the ledger only through the vote counts of the poll's own options. */
  lemma SameCountsSameResults(ps: seq<PollOption>, votes: seq<Vote>, votes': seq<Vote>)
    requires forall o :: o in ps ==> CountVotes(votes, o.id) == CountVotes(votes', o.id)
    ensures TotalVotes(ps, votes) == TotalVotes(ps, votes')
    ensures Rows(ps, votes, TotalVotes(ps, votes)) == Rows(ps, votes', TotalVotes(ps, votes'))
  {
    SameCountsSameTotal(ps, votes, votes');
  }

  lemma {:induction false} SameCountsSameTotal(ps: seq<PollOption>, votes: seq<Vote>, votes': seq<Vote>)
    requires forall o :: o in ps ==> CountVotes(votes, o.id) == CountVotes(votes', o.id)
    ensures TotalVotes(ps, votes) == TotalVotes(ps, votes')
  {
    if ps != [] {
      assert ps[|ps| - 1] in ps;
      SameCountsSameTotal(ps[..|ps| - 1], votes, votes');
    }
  }

  /** An accepted vote for one of the poll's options raises exactly that option's count by one. */
  lemma ResultsCountNewVote(options: seq<PollOption>, votes: seq<Vote>, v: Vote, pollId: nat, i: nat)
    requires i < |OptionsOf(options, pollId)|
    ensures CalculateResults(options, votes + [v], pollId)[i].votes ==
      CalculateResults(options, votes, pollId)[i].votes + (if OptionsOf(options, pollId)[i].id == v.optionId then 1 else 0)
  {
    CountVotesAppend(votes, v, OptionsOf(options, pollId)[i].id);
  }

  /**
   * Two votes for one option and one for the other: the first has two
   * thirds of the votes and the second one third; an option of another poll
   * is not reported.
   */
  lemma TwoToOneExample(red: PollOption, blue: PollOption, other: PollOption, pollId: nat, a: nat, b: nat, c: nat)
    requires red.pollId == pollId && blue.pollId == pollId && other.pollId != pollId && red.id != blue.id
    ensures CalculateResults([red, blue, other], [Vote(pollId, a, red.id), Vote(pollId, b, red.id), Vote(pollId, c, blue.id)], pollId)
            == [ResultRow(red.id, 2, 200.0 / 3.0), ResultRow(blue.id, 1, 100.0 / 3.0)]
  {
    var votes := [Vote(pollId, a, red.id), Vote(pollId, b, red.id), Vote(pollId, c, blue.id)];
    TwoOfThreeOptions(red, blue, other, pollId);
    TwoToOneCounts(red.id, blue.id, pollId, a, b, c);
    assert TotalVotes([red], votes) == 2;
    assert TotalVotes([red, blue], votes) == 3;
    ThirdsAsPercentages();
    var rowRed, rowBlue := ResultRow(red.id, 2, 200.0 / 3.0), ResultRow(blue.id, 1, 100.0 / 3.0);
    assert Rows([red], votes, 3) == [rowRed];
    assert Rows([red, blue], votes, 3) == [rowRed, rowBlue];
  }

  lemma TwoOfThreeOptions(red: PollOption, blue: PollOption, other: PollOption, pollId: nat)
    requires red.pollId == pollId && blue.pollId == pollId && other.pollId != pollId
    ensures OptionsOf([red, blue, other], pollId) == [red, blue]
  {
    assert [red, blue, other][..2] == [red, blue] && [red, blue][..1] == [red] && [red][..0] == [];
    assert OptionsOf([red], pollId) == [red];
    assert OptionsOf([red, blue], pollId) == [red, blue];
  }

  lemma TwoToOneCounts(x: nat, y: nat, pollId: nat, a: nat, b: nat, c: nat)
    requires x != y
    ensures var votes := [Vote(pollId, a, x), Vote(pollId, b, x), Vote(pollId, c, y)];
      CountVotes(votes, x) == 2 && CountVotes(votes, y) == 1
  {
    var votes := [Vote(pollId, a, x), Vote(pollId, b, x), Vote(pollId, c, y)];
    var v1 := [Vote(pollId, a, x)];
    var v2 := [Vote(pollId, a, x), Vote(pollId, b, x)];
    assert votes[..2] == v2 && v2[..1] == v1 && v1[..0] == [];
    assert CountVotes(v1, x) == 1 && CountVotes(v1, y) == 0;
    assert CountVotes(v2, x) == 2 && CountVotes(v2, y) == 0;
  }

  lemma ThirdsAsPercentages()
    ensures Percentage(2, 3) == 200.0 / 3.0 && Percentage(1, 3) == 100.0 / 3.0
  {
  }

  /** Some option row has this id and belongs to this poll. */
  predicate OptionInPoll(options: seq<PollOption>, optionId: nat, pollId: nat) {
    exists k :: 0 <= k < |options| && options[k].id == optionId && options[k].pollId == pollId
  }

  /** No two option rows share an id. */
  predicate UniqueOptionIds(options: seq<PollOption>) {
    forall i, j :: 0 <= i < j < |options| ==> options[i].id != options[j].id
  }

  /** Every vote names an option of the poll it is filed under. */
  predicate VotesMatchOptions(votes: seq<Vote>, options: seq<PollOption>) {
    forall i :: 0 <= i < |votes| ==> OptionInPoll(options, votes[i].optionId, votes[i].pollId)
  }

  /**
   * Every two votes that poll `pollId`'s tally counts (their option is one
   * of the poll's options) come from two different users.
   */
  predicate DistinctVotersIn(votes: seq<Vote>, options: seq<PollOption>, pollId: nat) {
    forall i, j ::
      0 <= i < j < |votes| && OptionInPoll(options, votes[i].optionId, pollId) && OptionInPoll(options, votes[j].optionId, pollId)
      ==> votes[i].userId != votes[j].userId
  }

  /**
   * A vote counted in a poll's tally whose option matches its own poll id
   * is filed under that poll: option ids are unique, so the option it
   * names belongs to one poll only.
   */
  lemma CountedVoteFiledUnder(options: seq<PollOption>, v: Vote, pollId: nat)
    requires UniqueOptionIds(options)
    requires OptionInPoll(options, v.optionId, v.pollId)
    requires OptionInPoll(options, v.optionId, pollId)
    ensures v.pollId == pollId
  {
    var k :| 0 <= k < |options| && options[k].id == v.optionId && options[k].pollId == v.pollId;
    var k' :| 0 <= k' < |options| && options[k'].id == v.optionId && options[k'].pollId == pollId;
    assert k == k';
  }

  /**
   * When every vote names an option of its own poll, one vote per user and
   * poll id means one counted vote per user in every poll's tally.
   */
  lemma MatchedVotesHaveDistinctVoters(votes: seq<Vote>, options: seq<PollOption>, pollId: nat)
    requires NoDoubleVotes(votes) && VotesMatchOptions(votes, options) && UniqueOptionIds(options)
    ensures DistinctVotersIn(votes, options, pollId)
  {
    forall i, j | 0 <= i < j < |votes| && OptionInPoll(options, votes[i].optionId, pollId) &&
      OptionInPoll(options, votes[j].optionId, pollId)
      ensures votes[i].userId != votes[j].userId
    {
      CountedVoteFiledUnder(options, votes[i], pollId);
      CountedVoteFiledUnder(options, votes[j], pollId);
    }
  }

  /** More option rows keep every vote matched. */
  lemma VotesMatchGrow(votes: seq<Vote>, options: seq<PollOption>, more: seq<PollOption>)
    requires VotesMatchOptions(votes, options)
    ensures VotesMatchOptions(votes, options + more)
  {
    forall i | 0 <= i < |votes| ensures OptionInPoll(options + more, votes[i].optionId, votes[i].pollId) {
      assert OptionInPoll(options, votes[i].optionId, votes[i].pollId);
      var k :| 0 <= k < |options| && options[k].id == votes[i].optionId && options[k].pollId == votes[i].pollId;
      assert (options + more)[k] == options[k];
    }
  }

  /** A vote that names an option of its own poll keeps every vote matched. */
  lemma VotesMatchAppend(votes: seq<Vote>, options: seq<PollOption>, v: Vote)
    requires VotesMatchOptions(votes, options)
    requires OptionInPoll(options, v.optionId, v.pollId)
    ensures VotesMatchOptions(votes + [v], options)
  {
    forall i | 0 <= i < |votes| + 1 ensures OptionInPoll(options, (votes + [v])[i].optionId, (votes + [v])[i].pollId) {
      if i < |votes| {
        assert (votes + [v])[i] == votes[i];
      }
    }
  }

  /**
   * As written, one user's two votes on one option, filed under the
   * option's poll and under another poll id, are free of double votes, yet
   * both are counted in the option's poll: when that poll has this one
   * option, its tally shows two votes, 100 %, from a single voter.
   */
  lemma ForeignPollIdCountedTwice(options: seq<PollOption>, opt: PollOption, otherPollId: nat, userId: nat)
    requires OptionsOf(options, opt.pollId) == [opt]
    requires otherPollId != opt.pollId
    ensures var votes := [Vote(opt.pollId, userId, opt.id), Vote(otherPollId, userId, opt.id)];
      NoDoubleVotes(votes) && !DistinctVotersIn(votes, options, opt.pollId)
    ensures var votes := [Vote(opt.pollId, userId, opt.id), Vote(otherPollId, userId, opt.id)];
      CalculateResults(options, votes, opt.pollId) == [ResultRow(opt.id, 2, 100.0)]
  {
    var votes := [Vote(opt.pollId, userId, opt.id), Vote(otherPollId, userId, opt.id)];
    TwoVotesOneOption(opt.pollId, otherPollId, userId, opt.id);
    OptionsOfMembers(options, opt.pollId, opt);
    var k :| 0 <= k < |options| && options[k] == opt;
    assert OptionInPoll(options, opt.id, opt.pollId);
    assert [opt][..0] == [];
    assert TotalVotes([opt], votes) == 2;
    assert Rows([opt], votes, 2) == [ResultRow(opt.id, 2, 100.0)];
    assert OptionInPoll(options, votes[0].optionId, opt.pollId) && OptionInPoll(options, votes[1].optionId, opt.pollId);
  }

  lemma TwoVotesOneOption(p: nat, q: nat, userId: nat, optionId: nat)
    ensures CountVotes([Vote(p, userId, optionId), Vote(q, userId, optionId)], optionId) == 2
  {
    var votes := [Vote(p, userId, optionId), Vote(q, userId, optionId)];
    assert votes[..1] == [votes[0]] && [votes[0]][..0] == [];
  }
}
