/** What a growing stack does to the books: the record that owns the stack, the server that hands
    the data over, and everyone else. */
module StackBooks {
  import opened Kernel
  import opened AddressSpace
  import opened TaskSteps
  import opened PageObjects
  import opened Words

  type BookMap = map<Id, TaskInfo>

  // ---------- one page through the data path ----------

  /** The data path raises the server's own quota by the page and charges the task twice. */
  function DataBooks(books: BookMap, self: Id, id: Id, va: nat, page: Cap, size: nat): BookMap
    requires self in books && id in books
  {
    var raised := books[self := books[self].(totalAvailable := Wrap(books[self].totalAvailable + size))];
    raised[id := Entered(raised[id], va, page, 0, 2 * size)]
  }

  function Charged(books: BookMap, id: Id, size: nat): BookMap
    requires id in books
  {
    books[id := books[id].(totalCommit := Wrap(books[id].totalCommit + size))]
  }

  /** Mapping here, moving there and charging again adds up to DataBooks. */
  lemma DataBooksOfMove(b0: BookMap, b1: BookMap, self: Id, id: Id, here: nat, va: nat, page: Cap, size: nat)
    requires self in b0 && id in b0 && here !in b0[self].pages
    requires b1 == b0[self := Entered(b0[self], here, page, size, size)] && va !in b1[id].pages
    ensures Charged(Moved(b1, self, id, here, va, page, 0, size), id, size) == DataBooks(b0, self, id, va, page, size)
  {
    hide Wrap;
    WrapTwice(b0[self].totalCommit + size, -(size as int));
    WrapFits(b0[self].totalCommit);
    WrapTwice(b0[id].totalCommit + size, size);
    assert b0[self].pages[here := page] - {here} == b0[self].pages;
    if self == id { DataBooksOfSelf(b0, b1, self, here, va, page, size); }
  }

  lemma DataBooksOfSelf(b0: BookMap, b1: BookMap, self: Id, here: nat, va: nat, page: Cap, size: nat)
    requires self in b0 && here !in b0[self].pages
    requires b1 == b0[self := Entered(b0[self], here, page, size, size)] && va !in b1[self].pages
    ensures Charged(Moved(b1, self, self, here, va, page, 0, size), self, size)
      == DataBooks(b0, self, self, va, page, size)
  {
    hide Wrap;
    var c := b0[self].totalCommit;
    WrapTwice(c + size, size);
    WrapTwice(c + 2 * size, -(size as int));
    WrapTwice(c + size, size);
    assert b0[self].pages[here := page][va := page] - {here} == b0[self].pages[va := page];
  }

  /** A data path that stops has changed nothing, or left the page in the server. */
  ghost predicate HalfDone(b0: BookMap, b1: BookMap, q0: map<Id, nat>, q1: map<Id, nat>, self: Id, page: Cap,
      size: nat) {
    || (b1 == b0 && q1 == q0)
    || (self in b0 && q1 == Raised(q0, self, size, true)
        && exists here: nat :: b1 == b0[self := Entered(b0[self], here, page, size, size)])
  }

  /** The server's quota after n bytes went through it. */
  function Raised(quota: map<Id, nat>, self: Id, n: nat, given: bool): map<Id, nat> {
    if given && self in quota then quota[self := quota[self] + n] else quota
  }

  lemma RaisedMore(quota: map<Id, nat>, self: Id, n: nat, k: nat, given: bool)
    ensures Raised(Raised(quota, self, n, given), self, k, given) == Raised(quota, self, n + k, given)
    ensures Raised(quota, self, 0, given) == quota
  {
  }

  // ---------- many pages ----------

  /** A record after n bytes of stack: the owner is charged once, or twice with data; with data
      the server's own quota rises. */
  function Paid(info: TaskInfo, pages: map<nat, Cap>, owner: bool, host: bool, n: nat, given: bool): TaskInfo {
    info.(pages := pages,
          totalAvailable := Wrap(info.totalAvailable + if given && host then n else 0),
          totalCommit := Wrap(info.totalCommit + if !owner then 0 else if given then 2 * n else n))
  }

  /** n bytes of stack were laid down for `id`; nobody but the owner and, with data, the server
      is touched. */
  ghost predicate Grew(b0: BookMap, b1: BookMap, self: Id, id: Id, n: nat, given: bool) {
    && b1.Keys == b0.Keys
    && (id in b0 ==> b0[id].pages.Keys <= b1[id].pages.Keys)
    && forall j {:trigger b1[j]} :: j in b0 ==>
      b1[j] == Paid(b0[j], if j == id then b1[j].pages else b0[j].pages, j == id, j == self, n, given)
  }

  /** The stack of a task is longer by n bytes. */
  function Committed(b: BookMap, id: Id, n: nat): BookMap
    requires id in b
  {
    b[id := b[id].(stackCommit := Wrap(b[id].stackCommit + n))]
  }

  /** The bytes charged twice after n bytes of stack. */
  function Twiced(twice: map<Id, nat>, id: Id, n: nat, given: bool): (after: map<Id, nat>)
    requires id in twice
    ensures id in after && after == twice[id := after[id]] && (!given ==> after == twice)
  {
    assert twice == twice[id := twice[id]];
    if given then twice[id := twice[id] + n] else twice
  }

  /** Only the owner and, with data, the server may have changed; the owner lost no page. */
  ghost predicate OthersKept(b0: BookMap, b1: BookMap, self: Id, id: Id, given: bool) {
    && b1.Keys == b0.Keys
    && (id in b0 ==> b0[id].pages.Keys <= b1[id].pages.Keys)
    && forall j {:trigger b1[j]} :: j in b0 && j != id && (given ==> j != self) ==> b1[j] == b0[j]
  }

  /** A growth that stops: the others and the length of the stack are kept, and without data
      what was laid down is paid for. */
  ghost predicate Stopped(b0: BookMap, b1: BookMap, self: Id, id: Id, given: bool) {
    && OthersKept(b0, b1, self, id, given)
    && (id in b0 ==> b1[id].stackCommit == b0[id].stackCommit)
    && (!given ==> exists n: nat :: Grew(b0, b1, self, id, n, false))
  }

  lemma PaidNothing(info: TaskInfo, owner: bool, host: bool, given: bool)
    ensures Paid(info, info.pages, owner, host, 0, given) == info
    ensures forall n :: !owner && !(given && host) ==> Paid(info, info.pages, owner, host, n, given) == info
  {
  }

  lemma PaidMore(info: TaskInfo, some: map<nat, Cap>, pages: map<nat, Cap>, owner: bool, host: bool, n: nat, k: nat,
      given: bool)
    ensures Paid(Paid(info, some, owner, host, n, given), pages, owner, host, k, given)
         == Paid(info, pages, owner, host, n + k, given)
  {
    hide Wrap;
    WrapTwice(info.totalAvailable + if given && host then n else 0, if given && host then k else 0);
    WrapTwice(info.totalCommit + if !owner then 0 else if given then 2 * n else n,
              if !owner then 0 else if given then 2 * k else k);
  }

  lemma GrewNothing(b: BookMap, self: Id, id: Id, given: bool)
    ensures Grew(b, b, self, id, 0, given)
  {
    forall j | j in b ensures b[j] == Paid(b[j], b[j].pages, j == id, j == self, 0, given) {
      PaidNothing(b[j], j == id, j == self, given);
    }
  }

  lemma GrewByPage(b0: BookMap, self: Id, id: Id, va: nat, page: Cap, size: nat, given: bool)
    requires id in b0 && (given ==> self in b0)
    ensures var b1 := if given then DataBooks(b0, self, id, va, page, size)
      else b0[id := Entered(b0[id], va, page, 0, size)];
      && Grew(b0, b1, self, id, size, given)
      && b1[id].pages == b0[id].pages[va := page]
  {
    var b1 := if given then DataBooks(b0, self, id, va, page, size) else b0[id := Entered(b0[id], va, page, 0, size)];
    forall j | j in b0
      ensures b1[j] == Paid(b0[j], if j == id then b1[j].pages else b0[j].pages, j == id, j == self, size, given)
    {
      PaidNothing(b0[j], j == id, j == self, given);
    }
  }

  lemma GrewMore(b0: BookMap, b1: BookMap, b2: BookMap, self: Id, id: Id, n: nat, k: nat, given: bool)
    requires Grew(b0, b1, self, id, n, given) && Grew(b1, b2, self, id, k, given)
    ensures Grew(b0, b2, self, id, n + k, given)
  {
    forall j | j in b0
      ensures b2[j] == Paid(b0[j], if j == id then b2[j].pages else b0[j].pages, j == id, j == self, n + k, given)
    {
      var some, pages := if j == id then b1[j].pages else b0[j].pages, if j == id then b2[j].pages else b1[j].pages;
      assert b1[j] == Paid(b0[j], some, j == id, j == self, n, given);
      assert b2[j] == Paid(b1[j], pages, j == id, j == self, k, given);
      PaidMore(b0[j], some, pages, j == id, j == self, n, k, given);
    }
  }

  lemma GrewKeepsOthers(b0: BookMap, b1: BookMap, self: Id, id: Id, n: nat, given: bool)
    requires Grew(b0, b1, self, id, n, given)
    ensures OthersKept(b0, b1, self, id, given)
  {
    forall j | j in b0 && j != id && (given ==> j != self) ensures b1[j] == b0[j] {
      assert b1[j] == Paid(b0[j], b0[j].pages, false, j == self, n, given);
      PaidNothing(b0[j], false, j == self, given);
    }
  }

  /** What the owner's record is worth after n bytes of stack. */
  lemma GrewOwner(b0: BookMap, b1: BookMap, self: Id, id: Id, n: nat, given: bool)
    requires Grew(b0, b1, self, id, n, given) && id in b0
    ensures id in b1 && b1[id].stackCommit == b0[id].stackCommit && b1[id].stackAvailable == b0[id].stackAvailable
    ensures !given || id != self ==> b1[id].totalAvailable == b0[id].totalAvailable
    ensures b1[id].totalCommit == Wrap(b0[id].totalCommit + if given then 2 * n else n)
  {
    WrapFits(b0[id].totalAvailable);
  }

  lemma GrewThenCommitted(b0: BookMap, b1: BookMap, self: Id, id: Id, n: nat, size: nat, given: bool)
    requires Grew(b0, b1, self, id, n, given) && id in b0
    ensures id in b1 && Grew(Committed(b0, id, size), Committed(b1, id, size), self, id, n, given)
    ensures OthersKept(b0, Committed(b1, id, size), self, id, given)
  {
    hide Wrap;
    GrewKeepsOthers(b0, b1, self, id, n, given);
  }

  lemma StoppedAtOnce(b0: BookMap, b1: BookMap, q0: map<Id, nat>, q1: map<Id, nat>, self: Id, id: Id, page: Cap,
      size: nat, given: bool)
    requires HalfDone(b0, b1, q0, q1, self, page, size) && (!given ==> b1 == b0)
    ensures Stopped(b0, b1, self, id, given)
    ensures id in b0 && (given ==> id != self) ==> b1[id] == b0[id]
  {
    if !given { GrewNothing(b0, self, id, false); }
  }

  lemma StoppedLater(b0: BookMap, b1: BookMap, b2: BookMap, self: Id, id: Id, n: nat, given: bool)
    requires Grew(b0, b1, self, id, n, given) && Stopped(b1, b2, self, id, given)
    ensures Stopped(b0, b2, self, id, given)
  {
    GrewKeepsOthers(b0, b1, self, id, n, given);
    if !given {
      var k: nat :| Grew(b1, b2, self, id, k, false);
      GrewMore(b0, b1, b2, self, id, n, k, false);
    }
  }

  // ---------- the whole ledger ----------

  /** All that a growth can be seen to change. */
  datatype Ledger = Ledger(objs: map<Cap, VirtPage>, books: BookMap, twice: map<Id, nat>, quota: map<Id, nat>,
    hindered: nat)

  /** n bytes of stack were laid down, the first page at `first`, where nothing was recorded. */
  ghost predicate Laid(a: Ledger, b: Ledger, self: Id, id: Id, n: nat, first: nat, given: bool) {
    && PagesKept(a.objs, b.objs) && a.hindered <= b.hindered
    && id in a.books && Grew(a.books, b.books, self, id, n, given)
    && (if n == 0 then b.books == a.books else first !in a.books[id].pages && first in b.books[id].pages)
    && id in a.twice && b.twice == Twiced(a.twice, id, n, given)
    && b.quota == Raised(a.quota, self, n, given)
  }

  /** The growth stopped, before its first page or with that page recorded. */
  ghost predicate Halted(a: Ledger, b: Ledger, self: Id, id: Id, first: nat, given: bool) {
    && PagesKept(a.objs, b.objs) && a.hindered <= b.hindered
    && id in a.books && Stopped(a.books, b.books, self, id, given)
    && ((given ==> id != self) ==> b.books[id] == a.books[id] || first in b.books[id].pages)
    && id in b.twice && b.twice == a.twice[id := b.twice[id]] && (!given ==> b.twice == a.twice)
    && (exists n: nat :: b.quota == Raised(a.quota, self, n, given))
  }

  lemma LaidNothing(a: Ledger, self: Id, id: Id, first: nat, given: bool)
    requires id in a.books && id in a.twice
    ensures Laid(a, a, self, id, 0, first, given)
  {
    GrewNothing(a.books, self, id, given);
    RaisedMore(a.quota, self, 0, 0, given);
    assert a.twice == a.twice[id := a.twice[id]];
  }

  lemma HaltedAtOnce(a: Ledger, self: Id, id: Id, first: nat, given: bool)
    requires id in a.books && id in a.twice
    ensures Halted(a, a, self, id, first, given)
  {
    GrewNothing(a.books, self, id, false);
    RaisedMore(a.quota, self, 0, 0, given);
    assert a.twice == a.twice[id := a.twice[id]];
  }

  lemma LaidKeepsPages(a: Ledger, b: Ledger, self: Id, id: Id, n: nat, first: nat, given: bool)
    requires Laid(a, b, self, id, n, first, given)
    ensures PagesKept(a.objs, b.objs) && a.hindered <= b.hindered
  {
  }

  lemma HaltedKeepsPages(a: Ledger, b: Ledger, self: Id, id: Id, first: nat, given: bool)
    requires Halted(a, b, self, id, first, given)
    ensures PagesKept(a.objs, b.objs) && a.hindered <= b.hindered
  {
  }

  lemma NothingMoves(a: Ledger, self: Id, id: Id, given: bool)
    ensures OthersKept(a.books, a.books, self, id, given) && PagesKept(a.objs, a.objs)
  {
  }

  lemma HaltedKeepsOthers(a: Ledger, b: Ledger, self: Id, id: Id, first: nat, given: bool)
    requires Halted(a, b, self, id, first, given)
    ensures OthersKept(a.books, b.books, self, id, given) && PagesKept(a.objs, b.objs) && a.hindered <= b.hindered
    ensures !given ==> b.twice == a.twice && b.quota == a.quota
  {
  }

  lemma LaidThenCommitted(a: Ledger, b: Ledger, self: Id, id: Id, n: nat, first: nat, size: nat, given: bool)
    requires Laid(a, b, self, id, n, first, given)
    ensures PagesKept(a.objs, b.objs) && a.hindered <= b.hindered
    ensures id in a.books && id in b.books
      && Grew(Committed(a.books, id, size), Committed(b.books, id, size), self, id, n, given)
    ensures OthersKept(a.books, Committed(b.books, id, size), self, id, given)
    ensures n > 0 ==> first !in a.books[id].pages
    ensures id in a.twice && b.twice == Twiced(a.twice, id, n, given) && (!given ==> b.twice == a.twice)
    ensures b.quota == Raised(a.quota, self, n, given)
  {
    GrewThenCommitted(a.books, b.books, self, id, n, size, given);
  }

  lemma LaidMore(a: Ledger, b: Ledger, c: Ledger, self: Id, id: Id, n: nat, k: nat, first: nat, next: nat, given: bool)
    requires Laid(a, b, self, id, n, first, given) && Laid(b, c, self, id, k, next, given) && (n == 0 ==> next == first)
    ensures Laid(a, c, self, id, n + k, first, given)
  {
    hide Grew, PagesKept, Twiced, Raised;
    RaisedMore(a.quota, self, n, k, given);
    GrewMore(a.books, b.books, c.books, self, id, n, k, given);
    GrewKeepsPages(a.books, b.books, self, id, n, given);
    GrewKeepsPages(b.books, c.books, self, id, k, given);
    TwicedMore(a.twice, id, n, k, given);
    PagesKeptTwice(a.objs, b.objs, c.objs);
  }

  lemma GrewKeepsPages(b0: BookMap, b1: BookMap, self: Id, id: Id, n: nat, given: bool)
    requires Grew(b0, b1, self, id, n, given) && id in b0
    ensures id in b1 && b0[id].pages.Keys <= b1[id].pages.Keys
  {
  }

  lemma TwicedMore(twice: map<Id, nat>, id: Id, n: nat, k: nat, given: bool)
    requires id in twice
    ensures Twiced(Twiced(twice, id, n, given), id, k, given) == Twiced(twice, id, n + k, given)
  {
  }

  lemma PagesKeptTwice(a: map<Cap, VirtPage>, b: map<Cap, VirtPage>, c: map<Cap, VirtPage>)
    requires PagesKept(a, b) && PagesKept(b, c)
    ensures PagesKept(a, c)
  {
  }

  lemma HaltedLater(a: Ledger, b: Ledger, c: Ledger, self: Id, id: Id, n: nat, first: nat, next: nat, given: bool)
    requires Laid(a, b, self, id, n, first, given) && Halted(b, c, self, id, next, given) && (n == 0 ==> next == first)
    ensures Halted(a, c, self, id, first, given) && a.hindered <= b.hindered
  {
    hide Grew, PagesKept, Twiced, Raised;
    var k: nat :| c.quota == Raised(b.quota, self, k, given);
    RaisedMore(a.quota, self, n, k, given);
    StoppedLater(a.books, b.books, c.books, self, id, n, given);
    GrewKeepsPages(a.books, b.books, self, id, n, given);
    PagesKeptTwice(a.objs, b.objs, c.objs);
  }

  lemma PageIsRefused(a: Ledger, b: Ledger, self: Id, id: Id, first: nat, page: Cap, size: nat, given: bool)
    requires id in a.books && id in a.twice && HalfDone(a.books, b.books, a.quota, b.quota, self, page, size)
      && (!given ==> b.books == a.books && b.quota == a.quota)
    requires PagesKept(a.objs, b.objs) && a.hindered <= b.hindered && b.twice == a.twice
    ensures Halted(a, b, self, id, first, given)
    ensures (given ==> id != self) ==> b.books[id] == a.books[id]
  {
    StoppedAtOnce(a.books, b.books, a.quota, b.quota, self, id, page, size, given);
    RaisedMore(a.quota, self, 0, 0, given);
    assert b.quota == Raised(a.quota, self, 0, given) || b.quota == Raised(a.quota, self, size, given);
    assert a.twice == a.twice[id := a.twice[id]];
  }

  lemma UnchangedIsHalfDone(b: BookMap, quota: map<Id, nat>, self: Id, page: Cap, size: nat)
    ensures HalfDone(b, b, quota, quota, self, page, size)
  {
  }
}
