/**
 The rows of a chat in ChatView.swift: messages with a row for the date before
 the first one and before each change of day, as pages of older messages are
 put in front and new messages arrive behind.
 */
module Transcript {
  import opened Wire

  /** One entry of `tempData`. */
  datatype Row = Row(ownerId: string, message: string, ownerName: string, timePosted: int, timeString: string,
    docId: string)

  /** A child of a Firebase snapshot; `day` is the text that the formatter makes of its time. */
  datatype Child = Child(key: string, ownerId: string, message: string, ownerName: string, timePosted: int, day: string)

  function DateRow(day: string): Row {
    Row("", "", "", 1, day, "")
  }

  function MessageRow(c: Child): Row {
    Row(c.ownerId, c.message, c.ownerName, c.timePosted, c.day, c.key)
  }

  /** Keys of Firebase are never empty: an empty `docId` marks the row of a date. */
  predicate IsMessage(r: Row) {
    r.docId != ""
  }

  predicate AllMessages(ms: seq<Row>) {
    forall k {:trigger IsMessage(ms[k])} :: 0 <= k < |ms| ==> IsMessage(ms[k])
  }

  lemma AllButLast(ms: seq<Row>)
    requires AllMessages(ms) && ms != []
    ensures AllMessages(ms[..|ms| - 1]) && IsMessage(ms[|ms| - 1])
  {
    var front := ms[..|ms| - 1];
    forall k | 0 <= k < |front|
      ensures IsMessage(front[k])
    {
      assert IsMessage(ms[k]);
    }
    assert IsMessage(ms[|ms| - 1]);
  }

  // -------------------------------------------------------------- layout

  /** The rows for message m after the messages ms. */
  function Block(ms: seq<Row>, m: Row): seq<Row> {
    if ms == [] || m.timeString != ms[|ms| - 1].timeString then [DateRow(m.timeString), m] else [m]
  }

  /** The rows of a list of messages. */
  function Layout(ms: seq<Row>): seq<Row> {
    if ms == [] then []
    else var n := |ms| - 1; Layout(ms[..n]) + Block(ms[..n], ms[n])
  }

  /** The messages among rows. */
  function Messages(rows: seq<Row>): seq<Row> {
    if rows == [] then []
    else
      var n := |rows| - 1;
      Messages(rows[..n]) + if IsMessage(rows[n]) then [rows[n]] else []
  }

  /** What a reader of the screen expects at row k. */
  predicate RightRow(rows: seq<Row>, k: nat)
    requires k < |rows|
  {
    if IsMessage(rows[k]) then
      k > 0 && rows[k].timeString == rows[k - 1].timeString
    else
      && k + 1 < |rows| && IsMessage(rows[k + 1]) && rows[k] == Row("", "", "", 1, rows[k + 1].timeString, "")
      && (k > 0 ==> IsMessage(rows[k - 1]) && rows[k - 1].timeString != rows[k].timeString)
  }

  ghost predicate RightRows(rows: seq<Row>) {
    forall k {:trigger RightRow(rows, k)} :: 0 <= k < |rows| ==> RightRow(rows, k)
  }

  lemma LayoutOfMore(ms: seq<Row>, m: Row)
    ensures Layout(ms + [m]) == Layout(ms) + Block(ms, m)
  {
    assert (ms + [m])[..|ms|] == ms;
  }

  lemma MessagesOfMore(rows: seq<Row>, r: Row)
    ensures Messages(rows + [r]) == Messages(rows) + if IsMessage(r) then [r] else []
  {
    assert (rows + [r])[..|rows|] == rows;
  }

  lemma MessagesOfBlock(rows: seq<Row>, ms: seq<Row>, m: Row)
    requires IsMessage(m)
    ensures Messages(rows + Block(ms, m)) == Messages(rows) + [m]
  {
    var d := DateRow(m.timeString);
    MessagesOfMore(rows, m);
    MessagesOfMore(rows, d);
    MessagesOfMore(rows + [d], m);
    assert rows + [d] + [m] == rows + [d, m];
  }

  lemma {:induction false} LayoutEnds(ms: seq<Row>)
    requires ms != []
    ensures |Layout(ms)| >= 2 && Layout(ms)[0] == DateRow(ms[0].timeString) && Layout(ms)[1] == ms[0]
    ensures Layout(ms)[|Layout(ms)| - 1] == ms[|ms| - 1]
  {
    if |ms| > 1 {
      LayoutEnds(ms[..|ms| - 1]);
    }
  }

  /** Without the rows of dates the messages are left, in order. */
  lemma {:induction false} LayoutKeepsMessages(ms: seq<Row>)
    requires AllMessages(ms)
    ensures Messages(Layout(ms)) == ms
  {
    if ms != [] {
      var n := |ms| - 1;
      var front, m := ms[..n], ms[n];
      AllButLast(ms);
      LayoutKeepsMessages(front);
      var rows := Layout(front);
      MessagesOfBlock(rows, front, m);
      assert ms == front + [m];
    }
  }

  /** Each row of a layout is the right one. */
  lemma {:induction false} LayoutIsRight(ms: seq<Row>)
    requires AllMessages(ms)
    ensures RightRows(Layout(ms))
  {
    if ms != [] {
      var n := |ms| - 1;
      AllButLast(ms);
      LayoutIsRight(ms[..n]);
      var front, rows := Layout(ms[..n]), Layout(ms);
      if n > 0 {
        LayoutEnds(ms[..n]);
      }
      assert n > 0 ==> IsMessage(ms[n - 1]);
      forall k | 0 <= k < |rows|
        ensures RightRow(rows, k)
      {
        if k < |front| {
          assert RightRow(front, k);
        }
      }
    }
  }

  /** Right rows end with the block of a message, behind right rows. */
  lemma Peel(rows: seq<Row>) returns (front: seq<Row>, m: Row)
    requires RightRows(rows) && rows != []
    ensures |front| < |rows| && RightRows(front) && IsMessage(m)
    ensures front != [] ==> IsMessage(front[|front| - 1])
    ensures rows == front + if front == [] || m.timeString != front[|front| - 1].timeString
                            then [DateRow(m.timeString), m] else [m]
  {
    var n := |rows| - 1;
    m := rows[n];
    assert RightRow(rows, n);
    assert RightRow(rows, n - 1);
    var cut := if IsMessage(rows[n - 1]) then n else n - 1;
    front := rows[..cut];
    forall k | 0 <= k < cut
      ensures RightRow(front, k)
    {
      assert RightRow(rows, k);
    }
  }

  lemma LastMessage(rows: seq<Row>)
    requires rows != [] && IsMessage(rows[|rows| - 1])
    ensures Messages(rows) != [] && Messages(rows)[|Messages(rows)| - 1] == rows[|rows| - 1]
  {
  }

  /** And nothing but the layout has the right rows for these messages. */
  lemma {:induction false} RightRowsAreLayout(rows: seq<Row>)
    requires RightRows(rows)
    ensures rows == Layout(Messages(rows))
    decreases |rows|
  {
    if rows != [] {
      var front, m := Peel(rows);
      RightRowsAreLayout(front);
      if front != [] {
        LastMessage(front);
      }
      var ms := Messages(front);
      assert rows == front + Block(ms, m);
      MessagesOfBlock(front, ms, m);
      LayoutOfMore(ms, m);
    }
  }

  /** The layout is the one list of rows that shows the messages with the right dates. */
  lemma LayoutCharacterised(rows: seq<Row>, ms: seq<Row>)
    requires AllMessages(ms)
    ensures rows == Layout(ms) <==> RightRows(rows) && Messages(rows) == ms
  {
    LayoutIsRight(ms);
    LayoutKeepsMessages(ms);
    if RightRows(rows) {
      RightRowsAreLayout(rows);
    }
  }

  /** A page in front of what is shown: without the first date row of the old list when the
      day goes on. */
  function Joined(last: Row, rows: seq<Row>): seq<Row> {
    if rows != [] && rows[0].timeString == last.timeString then rows[1..] else rows
  }

  lemma {:induction false} LayoutConcat(a: seq<Row>, b: seq<Row>)
    requires a != []
    ensures Layout(a + b) == Layout(a) + Joined(a[|a| - 1], Layout(b))
    decreases |b|
  {
    if b == [] {
      assert a + b == a;
      assert Layout(a) + [] == Layout(a);
    } else {
      var front, m := b[..|b| - 1], b[|b| - 1];
      assert b == front + [m];
      LayoutConcat(a, front);
      ConcatMore(a, front, m, Layout(front));
    }
  }

  lemma ConcatMore(a: seq<Row>, front: seq<Row>, m: Row, rows: seq<Row>)
    requires a != [] && rows == Layout(front)
    requires Layout(a + front) == Layout(a) + Joined(a[|a| - 1], rows)
    ensures Layout(a + (front + [m])) == Layout(a) + Joined(a[|a| - 1], Layout(front + [m]))
  {
    var all, last := a + front, a[|a| - 1];
    LayoutOfMore(all, m);
    Associative(a, front, [m]);
    Associative(Layout(a), Joined(last, rows), Block(all, m));
    LayoutOfMore(front, m);
    if front == [] {
      assert all == a && rows == [];
      assert [] + Block(front, m) == Block(front, m);
      assert [] + Block(all, m) == Block(all, m);
    } else {
      LayoutEnds(front);
      JoinedMore(last, rows, Block(front, m));
      assert all[|all| - 1] == front[|front| - 1];
    }
  }

  lemma Associative(a: seq<Row>, b: seq<Row>, c: seq<Row>)
    ensures a + (b + c) == (a + b) + c
  {
  }

  lemma JoinedMore(last: Row, rows: seq<Row>, more: seq<Row>)
    requires rows != []
    ensures Joined(last, rows + more) == Joined(last, rows) + more
  {
    assert (rows + more)[1..] == rows[1..] + more;
  }

  // ------------------------------------------------------------- one page

  predicate Earlier(a: Row, b: Row) {
    a.timePosted <= b.timePosted
  }

  function Insert(r: Row, rows: seq<Row>): seq<Row> {
    if rows == [] then [r] else if Earlier(r, rows[0]) then [r] + rows else [rows[0]] + Insert(r, rows[1..])
  }

  /** `sorted(by:)` on the time */
  function SortByTime(rows: seq<Row>): seq<Row> {
    if rows == [] then [] else Insert(rows[0], SortByTime(rows[1..]))
  }

  /** The rows of the children, without those of blocked users. */
  function Visible(blocked: set<string>, children: seq<Child>): seq<Row> {
    if children == [] then []
    else
      var n := |children| - 1;
      Visible(blocked, children[..n]) + if children[n].ownerId !in blocked then [MessageRow(children[n])] else []
  }

  lemma {:induction false} InsertContents(r: Row, rows: seq<Row>)
    ensures multiset(Insert(r, rows)) == multiset{r} + multiset(rows)
  {
    if rows != [] {
      assert rows == [rows[0]] + rows[1..];
      if !Earlier(r, rows[0]) {
        InsertContents(r, rows[1..]);
      }
    }
  }

  lemma {:induction false} SortContents(rows: seq<Row>)
    ensures multiset(SortByTime(rows)) == multiset(rows) && |SortByTime(rows)| == |rows|
  {
    if rows != [] {
      SortContents(rows[1..]);
      InsertContents(rows[0], SortByTime(rows[1..]));
      assert rows == [rows[0]] + rows[1..];
      assert |multiset(SortByTime(rows))| == |multiset(rows)|;
    }
  }

  /** In the order of time: every row is no later than those behind it. */
  predicate Ordered(rows: seq<Row>) {
    rows == [] || ((forall r :: r in rows[1..] ==> Earlier(rows[0], r)) && Ordered(rows[1..]))
  }

  lemma {:induction false} InsertOrdered(r: Row, rows: seq<Row>)
    requires Ordered(rows)
    ensures Ordered(Insert(r, rows))
  {
    if rows == [] {
    } else if Earlier(r, rows[0]) {
      assert ([r] + rows)[1..] == rows;
      forall q | q in rows
        ensures Earlier(r, q)
      {
        assert q == rows[0] || q in rows[1..];
      }
    } else {
      InsertOrdered(r, rows[1..]);
      InsertContents(r, rows[1..]);
      var more := Insert(r, rows[1..]);
      assert ([rows[0]] + more)[1..] == more;
      forall q | q in more
        ensures Earlier(rows[0], q)
      {
        assert q in multiset(more);
      }
    }
  }

  lemma {:induction false} SortOrdered(rows: seq<Row>)
    ensures Ordered(SortByTime(rows))
  {
    if rows != [] {
      SortOrdered(rows[1..]);
      InsertOrdered(rows[0], SortByTime(rows[1..]));
    }
  }

  /** Row i was posted no later than row j. */
  predicate NoLater(rows: seq<Row>, i: nat, j: nat)
    requires i < |rows| && j < |rows|
  {
    rows[i].timePosted <= rows[j].timePosted
  }

  /** Every row was posted no later than those below it. */
  ghost predicate Ascending(rows: seq<Row>) {
    forall i, j {:trigger NoLater(rows, i, j)} :: 0 <= i < j < |rows| ==> NoLater(rows, i, j)
  }

  lemma {:induction false} OrderedAscending(rows: seq<Row>)
    requires Ordered(rows)
    ensures Ascending(rows)
  {
    if rows != [] {
      OrderedAscending(rows[1..]);
      forall i, j | 0 <= i < j < |rows|
        ensures NoLater(rows, i, j)
      {
        assert rows[j] == rows[1..][j - 1];
        if i > 0 {
          assert NoLater(rows[1..], i - 1, j - 1);
        } else {
          assert Earlier(rows[0], rows[j]);
        }
      }
    }
  }

  lemma AscendingJoin(a: seq<Row>, b: seq<Row>)
    requires Ascending(a) && Ascending(b)
    requires a != [] && b != [] ==> a[|a| - 1].timePosted <= b[0].timePosted
    ensures Ascending(a + b)
  {
    var rows, n := a + b, |a|;
    forall i, j | 0 <= i < j < |rows|
      ensures NoLater(rows, i, j)
    {
      if j < n {
        assert NoLater(a, i, j);
      } else if i >= n {
        assert NoLater(b, i - n, j - n);
      } else {
        assert i < n - 1 ==> NoLater(a, i, n - 1);
        assert j > n ==> NoLater(b, 0, j - n);
      }
    }
  }

  /** The row shows this child. */
  predicate Shows(r: Row, c: Child) {
    && r.docId == c.key && r.ownerId == c.ownerId && r.ownerName == c.ownerName && r.message == c.message
    && r.timePosted == c.timePosted && r.timeString == c.day
  }

  ghost predicate OfSomeChild(blocked: set<string>, children: seq<Child>, r: Row) {
    exists c :: c in children && c.ownerId !in blocked && Shows(r, c)
  }

  ghost predicate InSomeRow(rows: seq<Row>, c: Child) {
    exists r :: r in rows && Shows(r, c)
  }

  /** Each row is of a child of a user who is not blocked, and each such child is in a row. */
  ghost predicate ShowAll(blocked: set<string>, children: seq<Child>, rows: seq<Row>) {
    && (forall r {:trigger OfSomeChild(blocked, children, r)} :: r in rows ==> OfSomeChild(blocked, children, r))
    && (forall c {:trigger InSomeRow(rows, c)} :: c in children && c.ownerId !in blocked ==> InSomeRow(rows, c))
  }

  /** A page: these rows, each as often as in the dictionary, in the order of time. */
  ghost predicate IsPage(blocked: set<string>, children: seq<Child>, page: seq<Row>) {
    Ascending(page) && multiset(page) == multiset(Visible(blocked, children)) && ShowAll(blocked, children, page)
  }

  lemma {:induction false} VisibleShows(blocked: set<string>, children: seq<Child>)
    ensures ShowAll(blocked, children, Visible(blocked, children))
  {
    if children != [] {
      var n, rows := |children| - 1, Visible(blocked, children);
      var front, last := children[..n], children[n];
      VisibleShows(blocked, front);
      assert Shows(MessageRow(last), last);
      forall r | r in rows
        ensures OfSomeChild(blocked, children, r)
      {
        if r in Visible(blocked, front) {
          assert OfSomeChild(blocked, front, r);
        }
      }
      forall c | c in children && c.ownerId !in blocked
        ensures InSomeRow(rows, c)
      {
        if c in front {
          assert InSomeRow(Visible(blocked, front), c);
        }
      }
    }
  }

  lemma SortedIsPage(blocked: set<string>, children: seq<Child>)
    ensures IsPage(blocked, children, SortByTime(Visible(blocked, children)))
  {
    var rows := Visible(blocked, children);
    SortContents(rows);
    SortOrdered(rows);
    OrderedAscending(SortByTime(rows));
    VisibleShows(blocked, children);
    SameMembers(SortByTime(rows), rows);
    forall r | r in SortByTime(rows)
      ensures OfSomeChild(blocked, children, r)
    {
    }
    forall c | c in children && c.ownerId !in blocked
      ensures InSomeRow(SortByTime(rows), c)
    {
      assert InSomeRow(rows, c);
    }
  }

  lemma SameMembers(a: seq<Row>, b: seq<Row>)
    requires multiset(a) == multiset(b)
    ensures forall r :: r in a <==> r in b
  {
    assert forall r :: r in a <==> r in multiset(a);
    assert forall r :: r in b <==> r in multiset(b);
  }

  /** The children were posted no later than the rows. */
  ghost predicate Older(children: seq<Child>, rows: seq<Row>) {
    rows != [] ==> forall c :: c in children ==> c.timePosted <= rows[0].timePosted
  }

  lemma OlderPage(blocked: set<string>, children: seq<Child>, page: seq<Row>, rows: seq<Row>)
    requires IsPage(blocked, children, page)
    ensures Ascending(page) && (Ascending(rows) && Older(children, rows) ==> Ascending(page + rows))
  {
    if Ascending(rows) && Older(children, rows) {
      if page != [] && rows != [] {
        assert OfSomeChild(blocked, children, page[|page| - 1]);
      }
      AscendingJoin(page, rows);
    }
  }

  /** No two of the rows were posted at the same time. */
  ghost predicate DistinctTimes(rows: multiset<Row>) {
    forall a, b :: a in rows && b in rows && a.timePosted == b.timePosted ==> a == b && rows[a] == 1
  }

  lemma TakeOut<T>(s: seq<T>, k: nat)
    requires k < |s|
    ensures multiset(s) == multiset{s[k]} + multiset(s[..k] + s[k + 1..])
  {
    assert s == s[..k] + [s[k]] + s[k + 1..];
  }

  lemma FirstOut<T>(s: seq<T>)
    requires s != []
    ensures multiset(s) == multiset{s[0]} + multiset(s[1..])
  {
    TakeOut(s, 0);
    assert s[..0] + s[1..] == s[1..];
  }

  lemma OrderedFirst(a: seq<Row>, r: Row)
    requires Ordered(a) && r in multiset(a)
    ensures a != [] && Earlier(a[0], r)
  {
    assert r in a;
    assert r == a[0] || r in a[1..];
  }

  lemma DistinctRest(r: Row, rows: multiset<Row>)
    requires DistinctTimes(multiset{r} + rows)
    ensures DistinctTimes(rows)
  {
    forall a, b | a in rows && b in rows && a.timePosted == b.timePosted
      ensures a == b && rows[a] == 1
    {
      assert a in multiset{r} + rows && b in multiset{r} + rows;
    }
  }

  lemma {:induction false} OrderedUnique(a: seq<Row>, b: seq<Row>)
    requires Ordered(a) && Ordered(b) && multiset(a) == multiset(b) && DistinctTimes(multiset(a))
    ensures a == b
  {
    if a == [] {
      assert |multiset(b)| == 0;
    } else {
      FirstOut(a);
      assert a[0] in multiset(b);
      OrderedFirst(b, a[0]);
      FirstOut(b);
      assert b[0] in multiset(a);
      OrderedFirst(a, b[0]);
      DistinctRest(a[0], multiset(a[1..]));
      assert multiset(a[1..]) == multiset(a) - multiset{a[0]} == multiset(b[1..]);
      OrderedUnique(a[1..], b[1..]);
    }
  }

  lemma {:induction false} VisibleConcat(blocked: set<string>, a: seq<Child>, b: seq<Child>)
    ensures Visible(blocked, a + b) == Visible(blocked, a) + Visible(blocked, b)
    decreases |b|
  {
    if b == [] {
      assert a + b == a;
    } else {
      var n := |b| - 1;
      VisibleConcat(blocked, a, b[..n]);
      assert (a + b)[..|a| + n] == a + b[..n];
    }
  }

  lemma VisibleTakeOut(blocked: set<string>, s: seq<Child>, k: nat)
    requires k < |s|
    ensures multiset(Visible(blocked, s))
            == multiset(Visible(blocked, [s[k]])) + multiset(Visible(blocked, s[..k] + s[k + 1..]))
  {
    var a, c, b := s[..k], [s[k]], s[k + 1..];
    assert s == (a + c) + b;
    VisibleConcat(blocked, a + c, b);
    VisibleConcat(blocked, a, c);
    VisibleConcat(blocked, a, b);
    Shuffled(Visible(blocked, a), Visible(blocked, c), Visible(blocked, b));
  }

  lemma Shuffled(a: seq<Row>, c: seq<Row>, b: seq<Row>)
    ensures multiset((a + c) + b) == multiset(c) + multiset(a + b)
  {
  }

  lemma {:induction false} VisibleContents(blocked: set<string>, a: seq<Child>, b: seq<Child>)
    requires multiset(a) == multiset(b)
    ensures multiset(Visible(blocked, a)) == multiset(Visible(blocked, b))
    decreases |a|
  {
    if a == [] {
      assert |multiset(b)| == 0;
    } else {
      assert a[0] in multiset(b);
      var k :| 0 <= k < |b| && b[k] == a[0];
      BothTakeOut(a, b, k);
      VisibleContents(blocked, a[..0] + a[1..], b[..k] + b[k + 1..]);
      VisibleTakeOut(blocked, a, 0);
      VisibleTakeOut(blocked, b, k);
    }
  }

  lemma BothTakeOut(a: seq<Child>, b: seq<Child>, k: nat)
    requires multiset(a) == multiset(b) && a != [] && k < |b| && b[k] == a[0]
    ensures multiset(a[..0] + a[1..]) == multiset(b[..k] + b[k + 1..])
  {
    TakeOut(a, 0);
    TakeOut(b, k);
    assert multiset(a[..0] + a[1..]) == multiset(a) - multiset{a[0]};
    assert multiset(b[..k] + b[k + 1..]) == multiset(b) - multiset{a[0]};
  }

  /** Whatever the order in which the dictionary of a snapshot is visited, the page is the
      same, unless two messages of it were posted at the same time. */
  lemma PageOrderIrrelevant(blocked: set<string>, a: seq<Child>, b: seq<Child>)
    requires multiset(a) == multiset(b) && DistinctTimes(multiset(Visible(blocked, a)))
    ensures SortByTime(Visible(blocked, a)) == SortByTime(Visible(blocked, b))
  {
    VisibleContents(blocked, a, b);
    var u, v := Visible(blocked, a), Visible(blocked, b);
    SortContents(u);
    SortContents(v);
    SortOrdered(u);
    SortOrdered(v);
    OrderedUnique(SortByTime(u), SortByTime(v));
  }

  // ------------------------------------------------------------ the view

  /** The loop that puts the rows of dates between sorted messages: `totalDates` counts the
      rows put in so far. */
  method InsertDates(tempData2: seq<Row>) returns (tempData3: seq<Row>)
    ensures tempData3 == Layout(tempData2)
  {
    tempData3 := tempData2;
    var totalDates := 0;
    ghost var rows: seq<Row> := [];
    assert [] + tempData2 == tempData2 && tempData2[..0] == [];
    for temp := 0 to |tempData2|
      invariant rows == Layout(tempData2[..temp])
      invariant totalDates >= 0 && temp + totalDates == |rows|
      invariant tempData3 == rows + tempData2[temp..]
    {
      DateGoesIn(tempData2, temp, rows);
      var row := DateRow(tempData2[temp].timeString);
      if temp == 0 {
        tempData3 := InsertAt(tempData3, 0, row);
        totalDates := totalDates + 1;
      } else if tempData2[temp].timeString != tempData2[temp - 1].timeString {
        totalDates := totalDates + 1;
        tempData3 := InsertAt(tempData3, temp - 1 + totalDates, row);
      }
      rows := Layout(tempData2[..temp + 1]);
    }
    assert tempData2[..|tempData2|] == tempData2 && tempData2[|tempData2|..] == [];
  }

  /** One round: the date goes behind the rows of the messages before, if it goes anywhere. */
  lemma DateGoesIn(ms: seq<Row>, n: nat, rows: seq<Row>)
    requires n < |ms| && rows == Layout(ms[..n])
    ensures var row, next := DateRow(ms[n].timeString), Layout(ms[..n + 1]);
            if n == 0 || ms[n].timeString != ms[n - 1].timeString
            then InsertAt(rows + ms[n..], |rows|, row) == next + ms[n + 1..] && |next| == |rows| + 2
            else rows + ms[n..] == next + ms[n + 1..] && |next| == |rows| + 1
  {
    var before, m, rest := ms[..n], ms[n], ms[n + 1..];
    assert ms[n..] == [m] + rest && ms[..n + 1] == before + [m];
    NextRows(rows, before, m, rest);
    LayoutOfMore(before, m);
  }

  /** `Array.insert(_:at:)` */
  function InsertAt(rows: seq<Row>, k: nat, r: Row): seq<Row>
    requires k <= |rows|
  {
    rows[..k] + [r] + rows[k..]
  }

  lemma NextRows(rows: seq<Row>, before: seq<Row>, m: Row, rest: seq<Row>)
    ensures Block(before, m) == [m] ==> rows + ([m] + rest) == (rows + Block(before, m)) + rest
    ensures InsertAt(rows + ([m] + rest), |rows|, DateRow(m.timeString)) == (rows + [DateRow(m.timeString), m]) + rest
  {
    var all, d := rows + ([m] + rest), DateRow(m.timeString);
    assert all[..|rows|] == rows && all[|rows|..] == [m] + rest;
  }

  /** The messages shown after a page of a query up to atValue has arrived. */
  function AfterPage(shown: seq<Row>, atValue: int, page: seq<Row>): seq<Row> {
    if page == [] then shown
    else if shown == [] then page
    else if atValue != 0 && page[0].docId != shown[0].docId then page + shown
    else shown
  }

  /** Exactly when a page goes in front of what is shown: when it was asked for up to a time, and begins with another
      message. */
  lemma InFrontExactly(shown: seq<Row>, atValue: int, page: seq<Row>)
    requires shown != [] && page != []
    ensures AfterPage(shown, atValue, page) == page + shown <==> atValue != 0 && page[0].docId != shown[0].docId
    ensures AfterPage(shown, atValue, page) == page + shown || AfterPage(shown, atValue, page) == shown
  {
    assert |page + shown| > |shown|;
  }

  /** Pages of messages that are no newer than those shown, and messages that are no older than them, keep the
      transcript in the order of time. */
  lemma OrderKept(blocked: set<string>, children: seq<Child>, page: seq<Row>, shown: seq<Row>, atValue: int, c: Child)
    requires Ascending(shown) && IsPage(blocked, children, page)
    ensures Older(children, shown) ==> Ascending(AfterPage(shown, atValue, page))
    ensures (shown != [] ==> shown[|shown| - 1].timePosted <= c.timePosted) ==> Ascending(shown + [MessageRow(c)])
  {
    OlderPage(blocked, children, page, shown);
    if shown != [] ==> shown[|shown| - 1].timePosted <= c.timePosted {
      AscendingJoin(shown, [MessageRow(c)]);
    }
  }

  class ChatView {
    var tempData: seq<Row>
    var startup: bool
    var totalPosts: nat
    const blockedUsers: set<string>
    // The messages that are shown.
    ghost var shown: seq<Row>

    ghost predicate Valid()
      reads this
    {
      && AllMessages(shown) && tempData == Layout(shown)
      && (startup ==> tempData == [])
    }

    constructor (blockedUsers: set<string>)
      ensures Valid() && startup && shown == [] && this.blockedUsers == blockedUsers
    {
      this.blockedUsers := blockedUsers;
      tempData, startup, totalPosts, shown := [], true, 30, [];
    }

    /** `loadMore`: the key and the time of the first message that is shown. */
    method LoadMore() returns (query: Option<(string, int)>)
      requires Valid()
      ensures query == if shown == [] then None else Some((shown[0].docId, shown[0].timePosted))
    {
      if |tempData| > 0 {
        LayoutEnds(shown);
        query := Some((tempData[1].docId, tempData[1].timePosted));
      } else {
        query := None;
      }
    }

    /** The answer to `getChatLogs`: the first one has an empty query and meets an empty list,
        later ones were asked for by `loadMore`. */
    method OnPage(id: string, atValue: int, children: seq<Child>)
      requires Valid() && (forall c :: c in children ==> c.key != "")
      requires if id == "" then atValue == 0 && startup else tempData != []
      modifies this
      ensures Valid()
      ensures var page := SortByTime(Visible(blockedUsers, children));
              && shown == AfterPage(old(shown), atValue, page)
              && IsPage(blockedUsers, children, page)
              && totalPosts == old(totalPosts) + (if page == [] then 0 else 30)
              && startup == (old(startup) && children != [] && page == [])
    {
      var tempData3;
      ghost var page;
      tempData3, page := BuildPage(children);
      if |children| == 0 {
        startup := false;
      }
      if |tempData3| == 0 {
        return;
      }
      if id == "" && atValue == 0 {
        assert tempData3 + [] == tempData3;
        tempData := tempData3 + tempData;
        shown := page;
      } else {
        Prepend(id, atValue, tempData3, page);
      }
      totalPosts := totalPosts + 30;
      startup := false;
    }

    /** Sorting a page and putting in its dates. */
    method BuildPage(children: seq<Child>) returns (tempData3: seq<Row>, ghost page: seq<Row>)
      requires forall c :: c in children ==> c.key != ""
      ensures page == SortByTime(Visible(blockedUsers, children)) && IsPage(blockedUsers, children, page)
      ensures AllMessages(page) && tempData3 == Layout(page)
      ensures tempData3 == [] <==> page == []
      ensures children == [] ==> page == []
    {
      var rows := VisibleRows(children);
      VisibleMessages(blockedUsers, children);
      SortedMessages(rows);
      SortContents(rows);
      SortedIsPage(blockedUsers, children);
      page := SortByTime(rows);
      tempData3 := InsertDates(SortByTime(rows));
      if page != [] {
        LayoutEnds(page);
      }
    }

    /** A page of older messages, unless it begins with the first message that is shown. */
    method Prepend(id: string, atValue: int, tempData3: seq<Row>, ghost page: seq<Row>)
      requires Valid() && AllMessages(page) && page != [] && tempData3 == Layout(page)
      requires id != "" && tempData != []
      modifies `tempData, `shown
      ensures Valid() && shown == AfterPage(old(shown), atValue, page)
    {
      LayoutEnds(page);
      LayoutEnds(shown);
      if tempData3[1].docId == tempData[1].docId {
        return;
      }
      if id != "" && atValue != 0 {
        LayoutConcat(page, shown);
        BothMessages(page, shown);
        if tempData[0].timeString == tempData3[|tempData3| - 1].timeString {
          tempData := tempData[1..];
        }
        tempData := tempData3 + tempData;
        shown := page + shown;
      }
    }

    /** The loop over the dictionary. */
    method VisibleRows(children: seq<Child>) returns (rows: seq<Row>)
      ensures rows == Visible(blockedUsers, children)
    {
      rows := [];
      for k := 0 to |children|
        invariant rows == Visible(blockedUsers, children[..k])
      {
        assert children[..k + 1][..k] == children[..k];
        if children[k].ownerId !in blockedUsers {
          rows := rows + [MessageRow(children[k])];
        }
      }
      assert children[..|children|] == children;
    }

    /** The observer of `listenToChat`: a new message. */
    method OnChildAdded(c: Child)
      requires Valid() && c.key != ""
      modifies this
      ensures Valid() && startup == old(startup) && totalPosts == old(totalPosts)
      ensures shown == if old(startup) || c.ownerId in blockedUsers then old(shown) else old(shown) + [MessageRow(c)]
      ensures Shows(MessageRow(c), c)
    {
      if startup || c.ownerId in blockedUsers {
        return;
      }
      if shown != [] {
        LayoutEnds(shown);
      }
      if |tempData| > 0 {
        if c.day != tempData[|tempData| - 1].timeString {
          tempData := tempData + [DateRow(c.day)];
        }
      } else {
        tempData := tempData + [DateRow(c.day)];
      }
      tempData := tempData + [MessageRow(c)];
      LayoutOfMore(shown, MessageRow(c));
      OneMessage(MessageRow(c));
      BothMessages(shown, [MessageRow(c)]);
      shown := shown + [MessageRow(c)];
    }
  }

  lemma OneMessage(m: Row)
    requires IsMessage(m)
    ensures AllMessages([m])
  {
  }

  lemma BothMessages(a: seq<Row>, b: seq<Row>)
    requires AllMessages(a) && AllMessages(b)
    ensures AllMessages(a + b)
  {
    forall k | 0 <= k < |a + b|
      ensures IsMessage((a + b)[k])
    {
      if k < |a| {
        assert IsMessage(a[k]);
      } else {
        assert IsMessage(b[k - |a|]);
      }
    }
  }

  lemma {:induction false} VisibleMessages(blocked: set<string>, children: seq<Child>)
    requires forall c :: c in children ==> c.key != ""
    ensures AllMessages(Visible(blocked, children))
  {
    if children != [] {
      var n := |children| - 1;
      VisibleMessages(blocked, children[..n]);
      if children[n].ownerId !in blocked {
        OneMessage(MessageRow(children[n]));
        BothMessages(Visible(blocked, children[..n]), [MessageRow(children[n])]);
      }
    }
  }

  lemma SortedMessages(rows: seq<Row>)
    requires AllMessages(rows)
    ensures AllMessages(SortByTime(rows))
  {
    SortContents(rows);
    var s := SortByTime(rows);
    forall k | 0 <= k < |s|
      ensures IsMessage(s[k])
    {
      assert s[k] in multiset(s);
      assert s[k] in rows;
      var j :| 0 <= j < |rows| && rows[j] == s[k];
      assert IsMessage(rows[j]);
    }
  }

  // ----------------------------------------------------- a silent transcript

  /** The first page and then a new message from somebody who is not blocked: the message is shown
      behind the page, unless there were messages in the page and they were all from blocked
      users; then nothing is shown. */
  method FirstPageThenMessage(blocked: set<string>, children: seq<Child>, c: Child) returns (rows: seq<Row>)
    requires (forall d :: d in children ==> d.key != "") && c.key != "" && c.ownerId !in blocked
    ensures var page := SortByTime(Visible(blocked, children));
            rows == if children != [] && page == [] then [] else Layout(page + [MessageRow(c)])
  {
    var view := new ChatView(blocked);
    view.OnPage("", 0, children);
    view.OnChildAdded(c);
    rows := view.tempData;
  }

  /** For instance one message from a blocked user. */
  method BlockedFirstPage() returns (rows: seq<Row>)
    ensures rows == []
  {
    var spam := Child("k1", "blocked", "hi", "B", 1, "Monday");
    var message := Child("k2", "friend", "hello", "F", 2, "Monday");
    OneBlocked("blocked", spam);
    rows := FirstPageThenMessage({"blocked"}, [spam], message);
  }

  lemma OneBlocked(user: string, c: Child)
    requires c.ownerId == user
    ensures SortByTime(Visible({user}, [c])) == []
  {
    assert [c][..0] == [];
    assert Visible({user}, [c]) == [];
    SortContents([]);
  }
}
