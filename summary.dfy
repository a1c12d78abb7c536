/** The one-line description of the current subscriptions that `Listen`
    logs before starting the listener: the topics in list order, separated
    by ", " and closed by a single ".", or nothing at all when there are no
    subscriptions. */
module Summary {

  /** The topics separated by ", ". */
  function Join(topics: seq<string>): string
    requires topics != []
  {
    if |topics| == 1 then topics[0]
    else Join(topics[..|topics| - 1]) + ", " + topics[|topics| - 1]
  }

  function SummaryOf(topics: seq<string>): string
  {
    if topics == [] then "" else Join(topics) + "."
  }

  /** Total number of characters in the topics themselves. */
  function TopicChars(topics: seq<string>): nat
  {
    if topics == [] then 0 else TopicChars(topics[..|topics| - 1]) + |topics[|topics| - 1]|
  }

  /** Number of occurrences of `c` in the topics themselves. */
  function TopicCount(topics: seq<string>, c: char): nat
  {
    if topics == [] then 0
    else TopicCount(topics[..|topics| - 1], c) + multiset(topics[|topics| - 1])[c]
  }

  lemma {:induction false} JoinShape(topics: seq<string>, c: char)
    requires topics != []
    ensures |Join(topics)| == TopicChars(topics) + 2 * (|topics| - 1)
    ensures multiset(Join(topics))[c] ==
            TopicCount(topics, c) + (if c == ',' || c == ' ' then |topics| - 1 else 0)
  {
    if |topics| > 1 {
      var init := topics[..|topics| - 1];
      JoinShape(init, c);
      assert init[..|init| - 1] == topics[..|topics| - 2];
      assert multiset(Join(topics)) ==
             multiset(Join(init)) + multiset(", ") + multiset(topics[|topics| - 1]);
    } else {
      assert topics[..0] == [];
    }
  }

  /** An empty list gives the empty string; otherwise the summary is one
      "." longer than the topics and their |topics| - 1 separators, and it
      ends in ".". */
  lemma SummaryShape(topics: seq<string>)
    ensures SummaryOf(topics) == "" <==> topics == []
    ensures topics != [] ==>
              |SummaryOf(topics)| == TopicChars(topics) + 2 * (|topics| - 1) + 1 &&
              SummaryOf(topics)[|SummaryOf(topics)| - 1] == '.'
  {
    if topics != [] {
      JoinShape(topics, ',');
    }
  }

  /** When no topic contains ',' or '.', the summary holds exactly
      |topics| - 1 commas (one per separator) and exactly one '.'. */
  lemma SeparatorCount(topics: seq<string>)
    requires topics != []
    requires TopicCount(topics, ',') == 0 && TopicCount(topics, '.') == 0
    ensures multiset(SummaryOf(topics))[','] == |topics| - 1
    ensures multiset(SummaryOf(topics))['.'] == 1
  {
    JoinShape(topics, ',');
    JoinShape(topics, '.');
    assert multiset(SummaryOf(topics)) == multiset(Join(topics)) + multiset(".");
  }
}
