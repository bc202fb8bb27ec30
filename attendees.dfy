/** How `DataAccessService` encodes a set of attendee ids as text for the
    `attendees` column and for the boolean full-text query against it. */
module Attendees {
  import opened Text

  const TokenPrefix: string := "att_"

  /** The word one attendee id becomes: "att_" then the id in decimal. */
  function Token(attendeeId: int): string
  {
    TokenPrefix + IntToString(attendeeId)
  }

  function Tokens(ids: seq<int>): (words: seq<string>)
    ensures |words| == |ids|
  {
    seq(|ids|, i requires 0 <= i < |ids| => Token(ids[i]))
  }

  predicate Sorted(xs: seq<int>) {
    forall i, j | 0 <= i < j < |xs| :: xs[i] <= xs[j]
  }

  predicate StrictlyIncreasing(xs: seq<int>) {
    forall i, j | 0 <= i < j < |xs| :: xs[i] < xs[j]
  }

  /** Places x into the sorted sequence xs. */
  function Insert(x: int, xs: seq<int>): (r: seq<int>)
    requires Sorted(xs)
    ensures Sorted(r) && multiset(r) == multiset(xs) + multiset{x}
  {
    if xs == [] || x <= xs[0] then
      [x] + xs
    else
      var tail := Insert(x, xs[1..]);
      InsertStep(x, xs, tail);
      [xs[0]] + tail
  }

  lemma InsertStep(x: int, xs: seq<int>, tail: seq<int>)
    requires Sorted(xs) && xs != [] && xs[0] < x
    requires Sorted(tail) && multiset(tail) == multiset(xs[1..]) + multiset{x}
    ensures Sorted([xs[0]] + tail) && multiset([xs[0]] + tail) == multiset(xs) + multiset{x}
  {
    assert xs == [xs[0]] + xs[1..];
    forall k | 0 <= k < |tail|
      ensures xs[0] <= tail[k]
    {
      assert tail[k] in multiset(tail);
      if tail[k] != x {
        assert tail[k] in xs[1..];
        var j :| 0 <= j < |xs[1..]| && xs[1..][j] == tail[k];
        assert xs[j + 1] == tail[k];
      }
    }
  }

  /** `stream().sorted()`: the collection in ascending (natural `Integer`) order. */
  function SortAscending(xs: seq<int>): (r: seq<int>)
    ensures Sorted(r) && multiset(r) == multiset(xs)
  {
    if xs == [] then []
    else
      assert xs == [xs[0]] + xs[1..];
      Insert(xs[0], SortAscending(xs[1..]))
  }

  lemma {:induction false} LeastExists(s: set<int>)
    requires s != {}
    ensures exists m :: m in s && forall y | y in s :: m <= y
    decreases |s|
  {
    if forall y :: y !in s {
      assert false;
    }
    var x :| x in s;
    var rest := s - {x};
    if rest == {} {
      assert s == {x};
    } else {
      LeastExists(rest);
      var m :| m in rest && forall y | y in rest :: m <= y;
      LeastStep(s, x, m);
    }
  }

  lemma LeastStep(s: set<int>, x: int, m: int)
    requires x in s && m in s - {x} && forall y | y in s - {x} :: m <= y
    ensures exists least :: least in s && forall y | y in s :: least <= y
  {
    var least := if x < m then x else m;
    assert forall y | y in s :: y == x || y in s - {x};
    assert least in s && forall y | y in s :: least <= y;
  }

  /** The least member of a non-empty set. */
  function Least(s: set<int>): (m: int)
    requires s != {}
    ensures m in s && forall y | y in s :: m <= y
  {
    LeastExists(s);
    var m :| m in s && forall y | y in s :: m <= y;
    m
  }

  /** The members of a set in ascending order. A `HashSet` is iterated in an
      unspecified order; this is the order the model fixes, and
      SerializeAnyIterationOrder shows that the choice does not matter. */
  function Elements(s: set<int>): (xs: seq<int>)
    ensures StrictlyIncreasing(xs) && multiset(xs) == multiset(s)
    decreases |s|
  {
    if s == {} then []
    else
      var m := Least(s);
      var rest := Elements(s - {m});
      ElementsStep(s, m, rest);
      [m] + rest
  }

  lemma ElementsStep(s: set<int>, m: int, rest: seq<int>)
    requires m in s && forall y | y in s :: m <= y
    requires StrictlyIncreasing(rest) && multiset(rest) == multiset(s - {m})
    ensures StrictlyIncreasing([m] + rest) && multiset([m] + rest) == multiset(s)
  {
    assert s == {m} + (s - {m});
    assert multiset(s) == multiset{m} + multiset(s - {m});
    forall k | 0 <= k < |rest|
      ensures m < rest[k]
    {
      assert rest[k] in multiset(rest);
    }
  }

  /** `integersToWords`: the ids in ascending order, each turned into its word.
      The argument is the collection in the order it happens to be iterated. */
  function IntegersToWords(attendees: seq<int>): seq<string>
  {
    Tokens(SortAscending(attendees))
  }

  /** `serializeAttendees`: the words joined by single spaces (the `attendees` column). */
  function SerializeAttendees(attendees: set<int>): string
  {
    Join(IntegersToWords(Elements(attendees)), " ")
  }

  /** `attendeesToQuery`: "+" and then the words joined by " +", so that the
      boolean full-text search requires every one of them. */
  function AttendeesToQuery(attendees: set<int>): string
  {
    "+" + Join(IntegersToWords(Elements(attendees)), " +")
  }

  predicate IsToken(w: string) {
    |w| > |TokenPrefix| && w[..|TokenPrefix|] == TokenPrefix && IsDecimal(w[|TokenPrefix|..])
  }

  function ParseToken(w: string): int
    requires IsToken(w)
  {
    ParseInt(w[|TokenPrefix|..])
  }

  /** The attendee ids whose words occur in a stored `attendees` value. The service
      never decodes the column; this is the reading the full-text index gives it. */
  function DeserializeAttendees(text: string): set<int>
  {
    set w | w in Split(text, ' ') && IsToken(w) :: ParseToken(w)
  }

  /** Full-text match in boolean mode, for the one operator the service's queries
      use: every "+word" term of the query is a word of the text. */
  predicate Matches(text: string, query: string)
  {
    forall term | term in Split(query, ' ') && |term| >= 2 && term[0] == '+' ::
      term[1..] in Split(text, ' ')
  }

  /** Each word of a query: the attendee word with a "+" in front. */
  function Required(words: seq<string>): (terms: seq<string>)
    ensures |terms| == |words|
  {
    seq(|words|, i requires 0 <= i < |words| => "+" + words[i])
  }

  lemma SortedHeadIsLeast(a: seq<int>, x: int)
    requires Sorted(a) && x in multiset(a)
    ensures |a| > 0 && a[0] <= x
  {
    var j :| 0 <= j < |a| && a[j] == x;
    if j > 0 {
      assert a[0] <= a[j];
    }
  }

  lemma SortedTail(a: seq<int>)
    requires Sorted(a) && |a| > 0
    ensures Sorted(a[1..])
  {
    forall i, j | 0 <= i < j < |a| - 1
      ensures a[1..][i] <= a[1..][j]
    {
      assert a[1..][i] == a[i + 1] && a[1..][j] == a[j + 1];
    }
  }

  lemma MultisetTail(a: seq<int>)
    requires |a| > 0
    ensures multiset(a[1..]) == multiset(a) - multiset{a[0]}
  {
    assert a == [a[0]] + a[1..];
  }

  lemma HeadsEqual(a: seq<int>, b: seq<int>)
    requires Sorted(a) && Sorted(b) && multiset(a) == multiset(b) && a != []
    ensures b != [] && a[0] == b[0]
  {
    assert a[0] in multiset(a);
    SortedHeadIsLeast(b, a[0]);
    assert b[0] in multiset(b);
    SortedHeadIsLeast(a, b[0]);
  }

  /** Two sorted sequences with the same elements are the same sequence. */
  lemma {:induction false} SortedUnique(a: seq<int>, b: seq<int>)
    requires Sorted(a) && Sorted(b) && multiset(a) == multiset(b)
    ensures a == b
  {
    if a == [] {
      assert |multiset(b)| == 0;
    } else {
      HeadsEqual(a, b);
      MultisetTail(a);
      MultisetTail(b);
      SortedTail(a);
      SortedTail(b);
      SortedUnique(a[1..], b[1..]);
      assert a == [a[0]] + a[1..];
      assert b == [b[0]] + b[1..];
    }
  }

  /** The words do not depend on the order the collection is iterated in. */
  lemma IntegersToWordsOrderFree(c1: seq<int>, c2: seq<int>)
    requires multiset(c1) == multiset(c2)
    ensures IntegersToWords(c1) == IntegersToWords(c2)
  {
    SortedUnique(SortAscending(c1), SortAscending(c2));
  }

  /** Whatever order a `HashSet` yields its members in, the stored string is the same. */
  lemma SerializeAnyIterationOrder(attendees: set<int>, order: seq<int>)
    requires multiset(order) == multiset(attendees)
    ensures Join(IntegersToWords(order), " ") == SerializeAttendees(attendees)
  {
    IntegersToWordsOrderFree(order, Elements(attendees));
  }

  lemma TokenRoundTrip(n: int)
    ensures IsToken(Token(n)) && ParseToken(Token(n)) == n
  {
    var w := Token(n);
    assert w[..|TokenPrefix|] == TokenPrefix && w[|TokenPrefix|..] == IntToString(n);
    IntToStringRoundTrip(n);
  }

  lemma TokenHasNoSpace(n: int)
    ensures ' ' !in Token(n)
  {
    var w := Token(n);
    forall k | 0 <= k < |w|
      ensures w[k] != ' '
    {
      if k >= |TokenPrefix| {
        assert w[k] == IntToString(n)[k - |TokenPrefix|];
      }
    }
  }

  /** The serialised words are the members' words, in ascending order of id. */
  lemma SerializedWords(attendees: set<int>)
    ensures attendees == {} ==> SerializeAttendees(attendees) == ""
    ensures attendees != {} ==> Split(SerializeAttendees(attendees), ' ') == Tokens(Elements(attendees))
  {
    var xs := Elements(attendees);
    SortedUnique(SortAscending(xs), xs);
    if attendees != {} {
      assert |multiset(xs)| == |attendees| > 0;
      var words := Tokens(xs);
      forall i | 0 <= i < |words|
        ensures ' ' !in words[i]
      {
        TokenHasNoSpace(xs[i]);
      }
      SplitJoin(words, ' ');
    }
  }

  /** `att_n` is a word of the stored string exactly when n is an attendee. */
  lemma TokenInSerialized(attendees: set<int>, n: int)
    ensures Token(n) in Split(SerializeAttendees(attendees), ' ') <==> n in attendees
  {
    SerializedWords(attendees);
    var xs := Elements(attendees);
    if n in attendees {
      assert n in multiset(xs);
      var i :| 0 <= i < |xs| && xs[i] == n;
      assert Tokens(xs)[i] == Token(n);
    }
    if Token(n) in Split(SerializeAttendees(attendees), ' ') {
      assert attendees != {};
      var i :| 0 <= i < |xs| && Tokens(xs)[i] == Token(n);
      TokenRoundTrip(n);
      TokenRoundTrip(xs[i]);
      assert xs[i] in multiset(xs);
    }
  }

  /** Decoding the stored string gives back exactly the attendee set. */
  lemma DeserializeSerialize(attendees: set<int>)
    ensures DeserializeAttendees(SerializeAttendees(attendees)) == attendees
  {
    var text := SerializeAttendees(attendees);
    var decoded := DeserializeAttendees(text);
    forall n | n in attendees
      ensures n in decoded
    {
      TokenInSerialized(attendees, n);
      TokenRoundTrip(n);
    }
    forall n | n in decoded
      ensures n in attendees
    {
      DecodedWasWritten(attendees, n);
    }
  }

  /** Every id read back from the stored string is an attendee. */
  lemma DecodedWasWritten(attendees: set<int>, n: int)
    requires n in DeserializeAttendees(SerializeAttendees(attendees))
    ensures n in attendees
  {
    var text := SerializeAttendees(attendees);
    var w :| w in Split(text, ' ') && IsToken(w) && ParseToken(w) == n;
    SerializedWords(attendees);
    assert attendees != {};
    var xs := Elements(attendees);
    var i :| 0 <= i < |xs| && Tokens(xs)[i] == w;
    TokenRoundTrip(xs[i]);
    assert xs[i] in multiset(attendees);
  }

  lemma {:induction false} JoinRequired(words: seq<string>)
    requires |words| >= 1
    ensures "+" + Join(words, " +") == Join(Required(words), " ")
  {
    if |words| > 1 {
      JoinRequired(words[1..]);
      assert Required(words)[1..] == Required(words[1..]);
      calc {
        "+" + Join(words, " +");
        "+" + (words[0] + " +" + Join(words[1..], " +"));
        ("+" + words[0]) + " " + ("+" + Join(words[1..], " +"));
        Required(words)[0] + " " + Join(Required(words[1..]), " ");
      }
    }
  }

  /** The query is "+" for no attendees, and otherwise one "+att_n" term per
      attendee, in ascending order of id. */
  lemma QueryTerms(attendees: set<int>)
    ensures attendees == {} ==> AttendeesToQuery(attendees) == "+"
    ensures attendees != {} ==>
      Split(AttendeesToQuery(attendees), ' ') == Required(Tokens(Elements(attendees)))
  {
    var xs := Elements(attendees);
    SortedUnique(SortAscending(xs), xs);
    if attendees != {} {
      assert |multiset(xs)| == |attendees| > 0;
      var words := Tokens(xs);
      JoinRequired(words);
      var terms := Required(words);
      forall i | 0 <= i < |terms|
        ensures ' ' !in terms[i]
      {
        TokenHasNoSpace(xs[i]);
      }
      SplitJoin(terms, ' ');
    }
  }

  lemma MatchesOnlySupersets(stored: set<int>, requested: set<int>)
    requires requested != {}
    requires Matches(SerializeAttendees(stored), AttendeesToQuery(requested))
    ensures requested <= stored
  {
    var xs := Elements(requested);
    var terms := Required(Tokens(xs));
    QueryTerms(requested);
    forall n | n in requested
      ensures n in stored
    {
      assert n in multiset(xs);
      var i :| 0 <= i < |xs| && xs[i] == n;
      assert terms[i] == "+" + Token(n);
      assert terms[i] in Split(AttendeesToQuery(requested), ' ');
      assert terms[i][1..] == Token(n);
      TokenInSerialized(stored, n);
    }
  }

  lemma SupersetsMatch(stored: set<int>, requested: set<int>)
    requires requested != {} && requested <= stored
    ensures Matches(SerializeAttendees(stored), AttendeesToQuery(requested))
  {
    var xs := Elements(requested);
    var terms := Required(Tokens(xs));
    QueryTerms(requested);
    forall term | term in Split(AttendeesToQuery(requested), ' ') && |term| >= 2 && term[0] == '+'
      ensures term[1..] in Split(SerializeAttendees(stored), ' ')
    {
      var i :| 0 <= i < |terms| && terms[i] == term;
      assert term[1..] == Token(xs[i]);
      assert xs[i] in multiset(requested);
      TokenInSerialized(stored, xs[i]);
    }
  }

  /** The full-text filter keeps a stored event exactly when its attendee set
      contains every requested attendee. */
  lemma MatchesIffSuperset(stored: set<int>, requested: set<int>)
    ensures Matches(SerializeAttendees(stored), AttendeesToQuery(requested)) <==> requested <= stored
  {
    if requested == {} {
      QueryTerms(requested);
      SplitWithout("+", ' ');
    } else {
      if Matches(SerializeAttendees(stored), AttendeesToQuery(requested)) {
        MatchesOnlySupersets(stored, requested);
      }
      if requested <= stored {
        SupersetsMatch(stored, requested);
      }
    }
  }
}
