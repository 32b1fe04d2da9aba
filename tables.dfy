/// The relational state of the lending ledger: one row datatype per table, the
/// single-statement reads and updates the ledger issues against them, and what
/// each update does to the counts the ledger keeps. Every table is a sequence of
/// rows in insertion order, and an UPDATE rewrites a row where it stands. "The
/// first row" of an unordered query is taken to be the first matching element
/// in that order, which the store itself does not promise.
module Tables {

  datatype Option<T> = None | Some(value: T)

  /** A row of `inventory`; its book_id is its position in the table plus one. */
  datatype Book = Book(title: string, bookType: string, author: string, copies: int)

  /** A row of `library_stock`. */
  datatype StockRow = StockRow(library: int, book: int, copies: int)

  /** A row of `libraries`. */
  datatype Branch = Branch(id: int, name: string)

  /** A row of `checkout`: dates are day numbers, the late fee is in cents. */
  datatype CheckoutRecord = CheckoutRecord(
    library: int, book: int, user: int, checkOutDate: int,
    dueDate: Option<int>, returnDate: Option<int>, lateFee: Option<int>)

  /** A row of `reserve`. */
  datatype Reservation = Reservation(library: int, book: int, user: int)

  /** A row of `users`; `password` holds the digest of the password. */
  datatype User = User(id: int, name: string, contactInfo: string, username: string,
                       password: string, sessionKey: Option<int>)

  /** The lending period: due_date is check_out_date + interval '2 weeks'. */
  const LendingDays: int := 14

  // ------------------------------------------------------------------ inventory

  predicate InCatalog(inventory: seq<Book>, id: int)
  {
    1 <= id <= |inventory|
  }

  /** get_book_id: the book_id of the first row with this title, 0 when there is none. */
  function BookId(inventory: seq<Book>, title: string): (id: nat)
    ensures id == 0 <==> forall i | 0 <= i < |inventory| :: inventory[i].title != title
    ensures id != 0 ==> InCatalog(inventory, id) && inventory[id - 1].title == title
    ensures forall i | 0 <= i < id - 1 :: inventory[i].title != title
    decreases |inventory|
  {
    if inventory == [] then 0
    else
      var earlier := BookId(inventory[..|inventory| - 1], title);
      if earlier != 0 then earlier
      else if inventory[|inventory| - 1].title == title then |inventory|
      else 0
  }

  /** The `copies` column of book `id`; 0 for a book_id without a row. */
  function Copies(inventory: seq<Book>, id: int): int
  {
    if InCatalog(inventory, id) then inventory[id - 1].copies else 0
  }

  /** UPDATE inventory SET copies = copies + delta WHERE book_id = id */
  function AdjustCopies(inventory: seq<Book>, id: int, delta: int): (r: seq<Book>)
    ensures |r| == |inventory|
    ensures Copies(r, id) == Copies(inventory, id) + (if InCatalog(inventory, id) then delta else 0)
  {
    if InCatalog(inventory, id) then
      inventory[id - 1 := inventory[id - 1].(copies := inventory[id - 1].copies + delta)]
    else inventory
  }

  /** add_new_book: UPDATE the row of a known title, INSERT a new row otherwise. */
  function UpsertBook(inventory: seq<Book>, title: string, bookType: string, author: string,
                      added: int): (r: seq<Book>)
    ensures BookId(inventory, title) != 0 ==> |r| == |inventory|
    ensures BookId(inventory, title) == 0 ==> |r| == |inventory| + 1 && r[|inventory|].title == title
  {
    var id := BookId(inventory, title);
    if id != 0 then AdjustCopies(inventory, id, added)
    else inventory + [Book(title, bookType, author, added)]
  }

  /** get_book_id reads titles only: two tables with the same titles give the same ids. */
  lemma BookIdReadsTitles(a: seq<Book>, b: seq<Book>, title: string)
    requires |a| == |b|
    requires forall i | 0 <= i < |a| :: a[i].title == b[i].title
    ensures BookId(a, title) == BookId(b, title)
  {
  }

  /** Changing one book's count moves exactly that count, by exactly `delta`,
      and leaves every title, and so every book_id, where it was. */
  lemma AdjustCopiesEffect(inventory: seq<Book>, id: int, delta: int)
    ensures |AdjustCopies(inventory, id, delta)| == |inventory|
    ensures forall i | 0 <= i < |inventory| ::
      AdjustCopies(inventory, id, delta)[i] ==
        if i == id - 1 then inventory[i].(copies := inventory[i].copies + delta) else inventory[i]
    ensures forall i | 0 <= i < |inventory| ::
      AdjustCopies(inventory, id, delta)[i].title == inventory[i].title
    ensures forall b :: Copies(AdjustCopies(inventory, id, delta), b) ==
                        Copies(inventory, b) + (if b == id && InCatalog(inventory, id) then delta else 0)
    ensures forall t :: BookId(AdjustCopies(inventory, id, delta), t) == BookId(inventory, t)
  {
    forall t ensures BookId(AdjustCopies(inventory, id, delta), t) == BookId(inventory, t) {
      BookIdReadsTitles(AdjustCopies(inventory, id, delta), inventory, t);
    }
  }

  /** The add_new_book upsert: afterwards the title has a book_id; a known title
      keeps its id and gains `added` copies, an unknown one gets the next id with
      `added` copies; every other book keeps its id and count. */
  lemma UpsertBookEffect(inventory: seq<Book>, title: string, bookType: string, author: string,
                         added: int)
    ensures var r := UpsertBook(inventory, title, bookType, author, added);
      var id := BookId(r, title);
      && id != 0
      && (BookId(inventory, title) != 0 ==>
            id == BookId(inventory, title) && |r| == |inventory| &&
            Copies(r, id) == Copies(inventory, id) + added)
      && (BookId(inventory, title) == 0 ==>
            id == |inventory| + 1 && |r| == |inventory| + 1 && Copies(r, id) == added)
      && (forall i | 0 <= i < |inventory| :: r[i].title == inventory[i].title)
      && (forall b | b != id :: Copies(r, b) == Copies(inventory, b))
      && (BookId(inventory, title) == 0 ==>
            r[..|inventory|] == inventory && r[|inventory|] == Book(title, bookType, author, added))
      && (forall i | 0 <= i < |inventory| && i != id - 1 :: r[i] == inventory[i])
      && (id - 1 < |inventory| ==> r[id - 1] == inventory[id - 1].(copies := inventory[id - 1].copies + added))
  {
    var old_id := BookId(inventory, title);
    AdjustCopiesEffect(inventory, old_id, added);
  }

  // ------------------------------------------------------------------ library_stock

  predicate IsStockOf(row: StockRow, library: int, book: int)
  {
    row.library == library && row.book == book
  }

  /** No two rows of `library_stock` share a (library_id, book_id) key. */
  predicate Keyed(stock: seq<StockRow>)
  {
    forall i, j | 0 <= i < j < |stock| :: !IsStockOf(stock[j], stock[i].library, stock[i].book)
  }

  /** Position of the first row for (library, book), |stock| when there is none. */
  function StockIndex(stock: seq<StockRow>, library: int, book: int): (k: nat)
    ensures k <= |stock|
    ensures forall j | 0 <= j < k :: !IsStockOf(stock[j], library, book)
    ensures k < |stock| ==> IsStockOf(stock[k], library, book)
  {
    if stock == [] then 0
    else if IsStockOf(stock[0], library, book) then 0
    else 1 + StockIndex(stock[1..], library, book)
  }

  /** get_book_copies: book_copies of the row for (library, book), None without a row. */
  function StockOf(stock: seq<StockRow>, library: int, book: int): Option<int>
  {
    var k := StockIndex(stock, library, book);
    if k < |stock| then Some(stock[k].copies) else None
  }

  /** Adding `delta` to a stored count that may be missing. */
  function Shift(count: Option<int>, delta: int): Option<int>
  {
    match count
    case None => None
    case Some(c) => Some(c + delta)
  }

  /** UPDATE library_stock SET book_copies = book_copies + delta
      WHERE book_id = book AND library_id = library */
  function AdjustStock(stock: seq<StockRow>, library: int, book: int, delta: int): (r: seq<StockRow>)
    ensures |r| == |stock|
  {
    if stock == [] then []
    else
      var row := stock[0];
      [if IsStockOf(row, library, book) then row.(copies := row.copies + delta) else row]
        + AdjustStock(stock[1..], library, book, delta)
  }

  /** add_to_library: UPDATE the row for (library, book) when there is one, INSERT it otherwise. */
  function UpsertStock(stock: seq<StockRow>, library: int, book: int, added: int): (r: seq<StockRow>)
    ensures StockOf(stock, library, book).Some? ==> |r| == |stock|
    ensures StockOf(stock, library, book).None? ==> |r| == |stock| + 1
  {
    if StockOf(stock, library, book).Some? then AdjustStock(stock, library, book, added)
    else stock + [StockRow(library, book, added)]
  }

  function Sum(xs: seq<int>): int
  {
    if xs == [] then 0 else xs[0] + Sum(xs[1..])
  }

  /** The book_copies column of the rows at `library`, in row order: total_books_at_library's query. */
  function CopiesAt(stock: seq<StockRow>, library: int): seq<int>
  {
    if stock == [] then []
    else (if stock[0].library == library then [stock[0].copies] else []) + CopiesAt(stock[1..], library)
  }

  /** The copies of every title stocked at `library`. */
  function LibraryTotal(stock: seq<StockRow>, library: int): int
  {
    if stock == [] then 0
    else (if stock[0].library == library then stock[0].copies else 0) + LibraryTotal(stock[1..], library)
  }

  /** The copies of `book` summed over every branch. */
  function BranchCopies(stock: seq<StockRow>, book: int): int
  {
    if stock == [] then 0
    else (if stock[0].book == book then stock[0].copies else 0) + BranchCopies(stock[1..], book)
  }

  /** Catalog copies minus the copies the branches hold, for one book. */
  function Balance(inventory: seq<Book>, stock: seq<StockRow>, book: int): int
  {
    Copies(inventory, book) - BranchCopies(stock, book)
  }

  lemma {:induction false} SumAppend(a: seq<int>, b: seq<int>)
    ensures Sum(a + b) == Sum(a) + Sum(b)
  {
    if a == [] {
      assert a + b == b;
    } else {
      assert (a + b)[1..] == a[1..] + b;
      SumAppend(a[1..], b);
    }
  }

  /** Summing the column total_books_at_library reads gives the library's total. */
  lemma {:induction false} SumOfCopiesAt(stock: seq<StockRow>, library: int)
    ensures Sum(CopiesAt(stock, library)) == LibraryTotal(stock, library)
  {
    if stock != [] {
      var head := if stock[0].library == library then [stock[0].copies] else [];
      SumOfCopiesAt(stock[1..], library);
      SumAppend(head, CopiesAt(stock[1..], library));
      if head != [] {
        assert head[1..] == [];
      }
    }
  }

  lemma KeyedTail(stock: seq<StockRow>)
    requires Keyed(stock) && stock != []
    ensures Keyed(stock[1..])
    ensures StockIndex(stock[1..], stock[0].library, stock[0].book) == |stock| - 1
  {
    var tail := stock[1..];
    forall i, j | 0 <= i < j < |tail| ensures !IsStockOf(tail[j], tail[i].library, tail[i].book) {
      assert tail[i] == stock[i + 1] && tail[j] == stock[j + 1];
    }
    forall j | 0 <= j < |tail| ensures !IsStockOf(tail[j], stock[0].library, stock[0].book) {
      assert tail[j] == stock[j + 1];
    }
  }

  /** The update touches the rows of (library, book), each by `delta`, and no other row. */
  lemma {:induction false} AdjustStockRows(stock: seq<StockRow>, library: int, book: int, delta: int)
    ensures var r := AdjustStock(stock, library, book, delta);
      forall i | 0 <= i < |r| ::
        r[i] == if IsStockOf(stock[i], library, book) then stock[i].(copies := stock[i].copies + delta) else stock[i]
  {
    if stock != [] {
      var r := AdjustStock(stock, library, book, delta);
      AdjustStockRows(stock[1..], library, book, delta);
      assert r[1..] == AdjustStock(stock[1..], library, book, delta);
      forall i | 1 <= i < |r|
        ensures r[i] == if IsStockOf(stock[i], library, book) then stock[i].(copies := stock[i].copies + delta) else stock[i]
      {
        assert r[i] == r[1..][i - 1] && stock[i] == stock[1..][i - 1];
      }
    }
  }

  /** The count updates keep keys unique. */
  lemma AdjustStockKeyed(stock: seq<StockRow>, library: int, book: int, delta: int)
    requires Keyed(stock)
    ensures Keyed(AdjustStock(stock, library, book, delta))
  {
    AdjustStockRows(stock, library, book, delta);
  }

  /** Appending a row leaves the first row of a present key where it was. */
  lemma {:induction false} StockIndexAppend(stock: seq<StockRow>, row: StockRow, library: int, book: int)
    ensures StockIndex(stock + [row], library, book) ==
      if StockIndex(stock, library, book) < |stock| then StockIndex(stock, library, book)
      else if IsStockOf(row, library, book) then |stock|
      else |stock| + 1
  {
    if stock == [] {
      assert stock + [row] == [row];
      assert [row][1..] == [];
    } else {
      assert (stock + [row])[1..] == stock[1..] + [row];
      StockIndexAppend(stock[1..], row, library, book);
    }
  }

  lemma {:induction false} BranchCopiesAppend(a: seq<StockRow>, b: seq<StockRow>, book: int)
    ensures BranchCopies(a + b, book) == BranchCopies(a, book) + BranchCopies(b, book)
  {
    if a == [] {
      assert a + b == b;
    } else {
      assert (a + b)[1..] == a[1..] + b;
      BranchCopiesAppend(a[1..], b, book);
    }
  }

  lemma {:induction false} LibraryTotalAppend(a: seq<StockRow>, b: seq<StockRow>, library: int)
    ensures LibraryTotal(a + b, library) == LibraryTotal(a, library) + LibraryTotal(b, library)
  {
    if a == [] {
      assert a + b == b;
    } else {
      assert (a + b)[1..] == a[1..] + b;
      LibraryTotalAppend(a[1..], b, library);
    }
  }

  /** Looking a key up in a non-empty table: the head row when it has the key, the tail otherwise. */
  lemma StockOfCons(stock: seq<StockRow>, l: int, b: int)
    requires stock != []
    ensures StockOf(stock, l, b) ==
      if IsStockOf(stock[0], l, b) then Some(stock[0].copies) else StockOf(stock[1..], l, b)
  {
  }

  /** The update on (library, book) moves that key's stored count by `delta` and
      leaves the stored count of every other key alone. */
  lemma {:induction false} AdjustStockLookup(stock: seq<StockRow>, library: int, book: int, delta: int,
                                             l: int, b: int)
    ensures StockOf(AdjustStock(stock, library, book, delta), l, b) ==
      if l == library && b == book then Shift(StockOf(stock, l, b), delta) else StockOf(stock, l, b)
  {
    if stock != [] {
      var r := AdjustStock(stock, library, book, delta);
      var head := stock[0];
      assert r[0] == if IsStockOf(head, library, book) then head.(copies := head.copies + delta) else head;
      assert r[1..] == AdjustStock(stock[1..], library, book, delta);
      AdjustStockLookup(stock[1..], library, book, delta, l, b);
      StockOfCons(stock, l, b);
      StockOfCons(r, l, b);
      if IsStockOf(head, l, b) {
        assert IsStockOf(r[0], l, b);
      } else {
        assert !IsStockOf(r[0], l, b);
      }
    }
  }

  /** With keys unique, the update on (library, book) changes `b`'s branch-wide
      count by `delta` when b is `book` and the row exists, and by nothing otherwise. */
  lemma {:induction false} AdjustStockBranchCopies(stock: seq<StockRow>, library: int, book: int,
                                                   delta: int, b: int)
    requires Keyed(stock)
    ensures BranchCopies(AdjustStock(stock, library, book, delta), b) ==
      BranchCopies(stock, b) + (if b == book && StockOf(stock, library, book).Some? then delta else 0)
  {
    if stock != [] {
      var r := AdjustStock(stock, library, book, delta);
      var tail := stock[1..];
      KeyedTail(stock);
      AdjustStockBranchCopies(tail, library, book, delta, b);
      assert r[1..] == AdjustStock(tail, library, book, delta);
      if !IsStockOf(stock[0], library, book) {
        assert StockIndex(stock, library, book) == 1 + StockIndex(tail, library, book);
      }
    }
  }

  /** With keys unique, the update on (library, book) changes library `l`'s total
      by `delta` when l is `library` and the row exists, and by nothing otherwise. */
  lemma {:induction false} AdjustStockLibraryTotal(stock: seq<StockRow>, library: int, book: int,
                                                   delta: int, l: int)
    requires Keyed(stock)
    ensures LibraryTotal(AdjustStock(stock, library, book, delta), l) ==
      LibraryTotal(stock, l) + (if l == library && StockOf(stock, library, book).Some? then delta else 0)
  {
    if stock != [] {
      var r := AdjustStock(stock, library, book, delta);
      var tail := stock[1..];
      KeyedTail(stock);
      AdjustStockLibraryTotal(tail, library, book, delta, l);
      assert r[1..] == AdjustStock(tail, library, book, delta);
      if !IsStockOf(stock[0], library, book) {
        assert StockIndex(stock, library, book) == 1 + StockIndex(tail, library, book);
      }
    }
  }

  /** Checkout (delta -1) and return (delta +1) move the catalog count and the
      branch count of the book together, so catalog copies minus the copies held
      by the branches stays what it was, for every book. */
  lemma TransferKeepsBalance(inventory: seq<Book>, stock: seq<StockRow>, library: int, book: int,
                             delta: int)
    requires Keyed(stock)
    requires InCatalog(inventory, book) && StockOf(stock, library, book).Some?
    ensures Copies(AdjustCopies(inventory, book, delta), book) == Copies(inventory, book) + delta
    ensures StockOf(AdjustStock(stock, library, book, delta), library, book) ==
      Some(StockOf(stock, library, book).value + delta)
    ensures forall b ::
              Balance(AdjustCopies(inventory, book, delta), AdjustStock(stock, library, book, delta), b)
              == Balance(inventory, stock, b)
  {
    AdjustCopiesEffect(inventory, book, delta);
    AdjustStockLookup(stock, library, book, delta, library, book);
    forall b ensures BranchCopies(AdjustStock(stock, library, book, delta), b) ==
                     BranchCopies(stock, b) + (if b == book then delta else 0) {
      AdjustStockBranchCopies(stock, library, book, delta, b);
    }
  }

  /** The add_to_library upsert keeps keys unique; the key's stored count grows by
      `added` (or starts at `added`), every other key's is unchanged, and the
      library's total and the book's branch-wide total grow by exactly `added`. */
  lemma UpsertStockEffect(stock: seq<StockRow>, library: int, book: int, added: int)
    requires Keyed(stock)
    ensures Keyed(UpsertStock(stock, library, book, added))
    ensures StockOf(UpsertStock(stock, library, book, added), library, book) ==
      Some(match StockOf(stock, library, book) case Some(c) => c + added case None => added)
    ensures forall l, b | !(l == library && b == book) ::
      StockOf(UpsertStock(stock, library, book, added), l, b) == StockOf(stock, l, b)
    ensures forall l ::
              LibraryTotal(UpsertStock(stock, library, book, added), l) ==
              LibraryTotal(stock, l) + (if l == library then added else 0)
    ensures forall b ::
              BranchCopies(UpsertStock(stock, library, book, added), b) ==
              BranchCopies(stock, b) + (if b == book then added else 0)
  {
    var r := UpsertStock(stock, library, book, added);
    var row := StockRow(library, book, added);
    if StockOf(stock, library, book).Some? {
      AdjustStockKeyed(stock, library, book, added);
      forall l, b ensures StockOf(r, l, b) ==
        if l == library && b == book then Shift(StockOf(stock, l, b), added) else StockOf(stock, l, b) {
        AdjustStockLookup(stock, library, book, added, l, b);
      }
      forall l ensures LibraryTotal(r, l) == LibraryTotal(stock, l) + (if l == library then added else 0) {
        AdjustStockLibraryTotal(stock, library, book, added, l);
      }
      forall b ensures BranchCopies(r, b) == BranchCopies(stock, b) + (if b == book then added else 0) {
        AdjustStockBranchCopies(stock, library, book, added, b);
      }
    } else {
      assert [row][1..] == [];
      forall l, b ensures StockOf(r, l, b) ==
        if l == library && b == book then Some(added) else StockOf(stock, l, b) {
        StockIndexAppend(stock, row, l, b);
      }
      forall l ensures LibraryTotal(r, l) == LibraryTotal(stock, l) + (if l == library then added else 0) {
        LibraryTotalAppend(stock, [row], l);
      }
      forall b ensures BranchCopies(r, b) == BranchCopies(stock, b) + (if b == book then added else 0) {
        BranchCopiesAppend(stock, [row], b);
      }
    }
  }

  // ------------------------------------------------------------------ checkout

  predicate IsLoanOf(row: CheckoutRecord, user: int, book: int)
  {
    row.user == user && row.book == book
  }

  /** The row checkout_book inserts, before add_due_date runs. */
  function NewLoan(library: int, book: int, user: int, date: int): CheckoutRecord
  {
    CheckoutRecord(library, book, user, date, None, None, None)
  }

  /** add_due_date: UPDATE checkout SET due_date = check_out_date + interval '2 weeks'
      WHERE user_id = user AND book_id = book */
  function SetDueDates(rows: seq<CheckoutRecord>, user: int, book: int): (r: seq<CheckoutRecord>)
    ensures |r| == |rows|
    ensures forall i | 0 <= i < |r| :: r[i].(dueDate := rows[i].dueDate) == rows[i]
  {
    seq(|rows|, i requires 0 <= i < |rows| =>
      if IsLoanOf(rows[i], user, book) then rows[i].(dueDate := Some(rows[i].checkOutDate + LendingDays))
      else rows[i])
  }

  /** UPDATE checkout SET late_fees = fee WHERE user_id = user AND book_id = book */
  function SetLateFees(rows: seq<CheckoutRecord>, user: int, book: int, fee: int): (r: seq<CheckoutRecord>)
    ensures |r| == |rows|
    ensures forall i | 0 <= i < |r| :: r[i].(lateFee := rows[i].lateFee) == rows[i]
    ensures forall i | 0 <= i < |r| ::
      r[i] == if IsLoanOf(rows[i], user, book) then rows[i].(lateFee := Some(fee)) else rows[i]
  {
    seq(|rows|, i requires 0 <= i < |rows| =>
      if IsLoanOf(rows[i], user, book) then rows[i].(lateFee := Some(fee)) else rows[i])
  }

  /** UPDATE checkout SET return_date = date, due_date = NULL
      WHERE book_id = book AND user_id = user AND library_id = library */
  function RecordReturn(rows: seq<CheckoutRecord>, library: int, book: int, user: int, date: int)
    : (r: seq<CheckoutRecord>)
    ensures |r| == |rows|
    ensures forall i | 0 <= i < |r| :: r[i].(returnDate := rows[i].returnDate, dueDate := rows[i].dueDate) == rows[i]
  {
    seq(|rows|, i requires 0 <= i < |rows| =>
      if IsLoanOf(rows[i], user, book) && rows[i].library == library
      then rows[i].(returnDate := Some(date), dueDate := None)
      else rows[i])
  }

  /** Position of the first row for (user, book), |rows| when there is none. */
  function LoanIndex(rows: seq<CheckoutRecord>, user: int, book: int): (k: nat)
    ensures k <= |rows|
    ensures forall j | 0 <= j < k :: !IsLoanOf(rows[j], user, book)
    ensures k < |rows| ==> IsLoanOf(rows[k], user, book)
  {
    if rows == [] then 0
    else if IsLoanOf(rows[0], user, book) then 0
    else 1 + LoanIndex(rows[1..], user, book)
  }

  /** The first row for (user, book): what apply_late_fees and return_book read back. */
  function FirstLoan(rows: seq<CheckoutRecord>, user: int, book: int): Option<CheckoutRecord>
  {
    var k := LoanIndex(rows, user, book);
    if k < |rows| then Some(rows[k]) else None
  }

  /** The non-null due dates of `user`'s rows, in row order: checkout_book's query. */
  function DueDates(rows: seq<CheckoutRecord>, user: int): (dates: seq<int>)
    ensures forall d :: d in dates <==>
      exists i | 0 <= i < |rows| :: rows[i].user == user && rows[i].dueDate == Some(d)
  {
    if rows == [] then []
    else
      var rest := DueDates(rows[1..], user);
      assert forall i | 0 <= i < |rows| - 1 :: rows[1..][i] == rows[i + 1];
      if rows[0].user == user && rows[0].dueDate.Some? then [rows[0].dueDate.value] + rest else rest
  }

  /** The overdue rule: the user has a row whose due date is strictly before `date`. */
  predicate Overdue(rows: seq<CheckoutRecord>, user: int, date: int)
  {
    exists i | 0 <= i < |rows| :: rows[i].user == user && rows[i].dueDate.Some? && date > rows[i].dueDate.value
  }

  /** Updates that keep each row's user and book keep the first row for (user, book) in place. */
  lemma LoanIndexStable(a: seq<CheckoutRecord>, b: seq<CheckoutRecord>, user: int, book: int)
    requires |a| == |b|
    requires forall i | 0 <= i < |a| :: a[i].user == b[i].user && a[i].book == b[i].book
    ensures LoanIndex(a, user, book) == LoanIndex(b, user, book)
  {
  }

  /** The due-date law: after checkout_book inserts its row and add_due_date runs,
      the new row is last and due 14 days after `date`, every row of (user, book),
      old or new, returned or not, is due 14 days after its own checkout date, and
      every other row is unchanged. */
  lemma CheckoutRowsLaw(rows: seq<CheckoutRecord>, library: int, book: int, user: int, date: int)
    ensures var r := SetDueDates(rows + [NewLoan(library, book, user, date)], user, book);
      && |r| == |rows| + 1
      && r[|rows|] == CheckoutRecord(library, book, user, date, Some(date + LendingDays), None, None)
      && (forall i | 0 <= i < |rows| ::
            r[i] == if IsLoanOf(rows[i], user, book)
                    then rows[i].(dueDate := Some(rows[i].checkOutDate + LendingDays))
                    else rows[i])
  {
  }

  /** A return stamps the return date and clears the due date on every row of
      (library, book, user) and leaves every other row alone. */
  lemma ReturnRowsLaw(rows: seq<CheckoutRecord>, library: int, book: int, user: int, date: int)
    ensures var r := RecordReturn(rows, library, book, user, date);
      && |r| == |rows|
      && (forall i | 0 <= i < |r| && IsLoanOf(rows[i], user, book) && rows[i].library == library ::
            r[i] == rows[i].(returnDate := Some(date), dueDate := None))
      && (forall i | 0 <= i < |r| && !(IsLoanOf(rows[i], user, book) && rows[i].library == library) ::
            r[i] == rows[i])
  {
  }

  /** Returns are not idempotent: once the first row of (user, book) has been
      returned at its own library its due date is cleared, so a second return's
      fee lookup finds no due date. */
  lemma SecondReturnFindsNoDueDate(rows: seq<CheckoutRecord>, library: int, book: int, user: int,
                                   date: int, fee: Option<int>)
    requires FirstLoan(rows, user, book).Some?
    requires FirstLoan(rows, user, book).value.library == library
    ensures var assessed := if fee.Some? then SetLateFees(rows, user, book, fee.value) else rows;
      var r := RecordReturn(assessed, library, book, user, date);
      FirstLoan(r, user, book).Some? && FirstLoan(r, user, book).value.dueDate.None?
      && FirstLoan(r, user, book).value.returnDate == Some(date)
  {
    var assessed := if fee.Some? then SetLateFees(rows, user, book, fee.value) else rows;
    var r := RecordReturn(assessed, library, book, user, date);
    LoanIndexStable(assessed, rows, user, book);
    LoanIndexStable(r, rows, user, book);
  }

  /** A late return stores its fee: after the fee update and the return stamp,
      the first row of (user, book), the row return_book hands back, carries it. */
  lemma LateReturnRecordCarriesFee(rows: seq<CheckoutRecord>, library: int, book: int, user: int,
                                   date: int, fee: int)
    requires FirstLoan(rows, user, book).Some?
    ensures FirstLoan(RecordReturn(SetLateFees(rows, user, book, fee), library, book, user, date), user, book)
              .value.lateFee == Some(fee)
  {
    var assessed := SetLateFees(rows, user, book, fee);
    var r := RecordReturn(assessed, library, book, user, date);
    LoanIndexStable(assessed, rows, user, book);
    LoanIndexStable(r, rows, user, book);
  }

  // ------------------------------------------------------------------ users

  /** The session check of checkout, edit and delete: a row with this username and session key. */
  predicate SessionValid(users: seq<User>, username: string, key: int)
  {
    exists i | 0 <= i < |users| :: users[i].username == username && users[i].sessionKey == Some(key)
  }

  /** login's check: a row with this username and password digest. */
  predicate PasswordMatches(users: seq<User>, username: string, digest: string)
  {
    exists i | 0 <= i < |users| :: users[i].username == username && users[i].password == digest
  }

  /** create_account's check: a row with this name and username. */
  predicate Registered(users: seq<User>, name: string, username: string)
  {
    exists i | 0 <= i < |users| :: users[i].name == name && users[i].username == username
  }

  /** get_user_id: the id of the first row with this username. */
  function UserIdOf(users: seq<User>, username: string): (r: Option<int>)
    ensures r.Some? <==> exists i | 0 <= i < |users| :: users[i].username == username
    ensures r.Some? ==> exists i | 0 <= i < |users| :: users[i].username == username && users[i].id == r.value
  {
    if users == [] then None
    else if users[0].username == username then Some(users[0].id)
    else
      assert forall i | 0 <= i < |users| - 1 :: users[1..][i] == users[i + 1];
      UserIdOf(users[1..], username)
  }

  /** login: UPDATE users SET session_key = key WHERE username = username AND password = digest */
  function SetSessionKey(users: seq<User>, username: string, digest: string, key: int): (r: seq<User>)
    ensures |r| == |users|
    ensures forall i | 0 <= i < |r| :: r[i].(sessionKey := users[i].sessionKey) == users[i]
  {
    seq(|users|, i requires 0 <= i < |users| =>
      if users[i].username == username && users[i].password == digest
      then users[i].(sessionKey := Some(key)) else users[i])
  }

  /** edit_account: UPDATE users SET contact_info = info WHERE username = username */
  function SetContactInfo(users: seq<User>, username: string, info: string): (r: seq<User>)
    ensures |r| == |users|
    ensures forall i | 0 <= i < |r| :: r[i].(contactInfo := users[i].contactInfo) == users[i]
  {
    seq(|users|, i requires 0 <= i < |users| =>
      if users[i].username == username then users[i].(contactInfo := info) else users[i])
  }

  /** delete_account: DELETE FROM users WHERE username = username AND session_key = key */
  function DeleteSessions(users: seq<User>, username: string, key: int): (r: seq<User>)
    ensures forall u :: u in r <==> u in users && !(u.username == username && u.sessionKey == Some(key))
    ensures forall u :: multiset(r)[u] ==
                        (if u.username == username && u.sessionKey == Some(key) then 0 else multiset(users)[u])
    ensures |r| <= |users|
  {
    if users == [] then []
    else
      var rest := DeleteSessions(users[1..], username, key);
      assert users == [users[0]] + users[1..];
      if users[0].username == username && users[0].sessionKey == Some(key) then rest
      else [users[0]] + rest
  }

  /** A successful login opens the session it hands out, gives that key to every
      row with the same username and digest, and changes nothing else. */
  lemma LoginOpensSession(users: seq<User>, username: string, digest: string, key: int)
    requires PasswordMatches(users, username, digest)
    ensures var r := SetSessionKey(users, username, digest, key);
      && SessionValid(r, username, key)
      && |r| == |users|
      && (forall i | 0 <= i < |r| && users[i].username == username && users[i].password == digest ::
            r[i].sessionKey == Some(key))
      && (forall i | 0 <= i < |r| && !(users[i].username == username && users[i].password == digest) ::
            r[i] == users[i])
  {
    var i :| 0 <= i < |users| && users[i].username == username && users[i].password == digest;
    assert SetSessionKey(users, username, digest, key)[i].sessionKey == Some(key);
  }

  /** Deleting an account ends that session, and keeps every row that was not deleted. */
  lemma DeleteEndsSession(users: seq<User>, username: string, key: int)
    ensures !SessionValid(DeleteSessions(users, username, key), username, key)
    ensures forall i | 0 <= i < |users| && !(users[i].username == username && users[i].sessionKey == Some(key)) ::
      users[i] in DeleteSessions(users, username, key)
  {
  }

  /** Editing contact info sets it on every row of the username and keeps every session as it was. */
  lemma EditKeepsSessions(users: seq<User>, username: string, info: string)
    ensures var r := SetContactInfo(users, username, info);
      && |r| == |users|
      && (forall i | 0 <= i < |r| ::
            r[i] == if users[i].username == username then users[i].(contactInfo := info) else users[i])
      && (forall n, k :: SessionValid(r, n, k) <==> SessionValid(users, n, k))
  {
    var r := SetContactInfo(users, username, info);
    forall n, k ensures SessionValid(r, n, k) <==> SessionValid(users, n, k) {
      if SessionValid(users, n, k) {
        var i :| 0 <= i < |users| && users[i].username == n && users[i].sessionKey == Some(k);
        assert r[i].username == n && r[i].sessionKey == Some(k);
      }
      if SessionValid(r, n, k) {
        var i :| 0 <= i < |r| && r[i].username == n && r[i].sessionKey == Some(k);
        assert users[i].username == n && users[i].sessionKey == Some(k);
      }
    }
  }
}
