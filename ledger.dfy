/// The lending ledger of `src/db/library.py`: the database as one object whose
/// fields are its tables, and one method per operation that changes them. Every
/// SQL statement the source commits is one assignment to a table, in the
/// source's order. A statement that raises in the source ends the method with
/// a failure outcome, and the statements already committed stay in effect.
module Ledger {
  import opened Tables
  import Fees
  import Listing

  datatype CheckoutOutcome = CheckedOut(title: string) | NoAuthentication | OverdueBlock
  datatype ReturnOutcome = Returned(record: CheckoutRecord) | FeeLookupFailed
  datatype ReserveOutcome = Reserved | CopiesAvailable | NotStocked
  datatype LoginOutcome = LoginSuccessful(key: int) | LoginUnsuccessful
  datatype CreateOutcome = AccountCreated | UserExists
  datatype EditOutcome = InfoUpdated | EditRefused
  datatype DeleteOutcome = AccountDeleted | DeleteRefused

  /** Session keys come from secrets.randbits(32). */
  const SessionKeyBound: int := 0x1_0000_0000

  class Library {
    var inventory: seq<Book>
    var stock: seq<StockRow>
    var checkouts: seq<CheckoutRecord>
    var reservations: seq<Reservation>
    var users: seq<User>
    /** The next value of the users.id serial. */
    var nextUserId: int
    /** The `libraries` table, which no operation changes. */
    const branches: seq<Branch>
    /** The password digest (SHA-512 hex digest in the source). */
    const digest: string -> string

    ghost predicate Valid()
      reads this
    {
      && Keyed(stock)
      && 1 <= nextUserId
      && forall u | u in users :: u.id < nextUserId
    }

    constructor (branches: seq<Branch>, digest: string -> string)
      ensures Valid()
      ensures this.branches == branches && this.digest == digest
      ensures inventory == [] && stock == [] && checkouts == [] && reservations == [] && users == []
    {
      this.branches := branches;
      this.digest := digest;
      inventory, stock, checkouts, reservations, users := [], [], [], [], [];
      nextUserId := 1;
    }

    // -------------------------------------------------------------- accounts

    /** login: when a row has this username and the digest of this password, the
        fresh 32-bit `key` becomes the session key of every such row. */
    method Login(username: string, password: string, key: int) returns (outcome: LoginOutcome)
      requires Valid()
      requires 0 <= key < SessionKeyBound
      modifies this`users
      ensures Valid()
      ensures PasswordMatches(old(users), username, digest(password)) ==>
        && outcome == LoginSuccessful(key)
        && users == SetSessionKey(old(users), username, digest(password), key)
        && SessionValid(users, username, key)
      ensures !PasswordMatches(old(users), username, digest(password)) ==>
        outcome == LoginUnsuccessful && users == old(users)
    {
      var hashed := digest(password);
      if PasswordMatches(users, username, hashed) {
        LoginOpensSession(users, username, hashed, key);
        users := SetSessionKey(users, username, hashed, key);
        outcome := LoginSuccessful(key);
      } else {
        outcome := LoginUnsuccessful;
      }
    }

    /** create_account: refused when a row already has this name and username;
        otherwise inserts a row with the next id, the password's digest and no
        session key. */
    method CreateAccount(name: string, contactInfo: string, username: string, password: string)
      returns (outcome: CreateOutcome)
      requires Valid()
      modifies this`users, this`nextUserId
      ensures Valid()
      ensures Registered(old(users), name, username) ==>
        outcome == UserExists && users == old(users) && nextUserId == old(nextUserId)
      ensures !Registered(old(users), name, username) ==>
        && outcome == AccountCreated
        && users == old(users) + [User(old(nextUserId), name, contactInfo, username, digest(password), None)]
        && nextUserId == old(nextUserId) + 1
        && Registered(users, name, username)
    {
      if Registered(users, name, username) {
        outcome := UserExists;
      } else {
        users := users + [User(nextUserId, name, contactInfo, username, digest(password), None)];
        assert users[|users| - 1].name == name;
        nextUserId := nextUserId + 1;
        outcome := AccountCreated;
      }
    }

    /** edit_account: with a valid session, sets the contact info of every row with this username. */
    method EditAccount(username: string, contactInfo: string, key: int) returns (outcome: EditOutcome)
      requires Valid()
      modifies this`users
      ensures Valid()
      ensures SessionValid(old(users), username, key) ==>
        outcome == InfoUpdated && users == SetContactInfo(old(users), username, contactInfo)
      ensures !SessionValid(old(users), username, key) ==>
        outcome == EditRefused && users == old(users)
    {
      if SessionValid(users, username, key) {
        users := SetContactInfo(users, username, contactInfo);
        outcome := InfoUpdated;
      } else {
        outcome := EditRefused;
      }
    }

    /** delete_account: with a valid session, deletes the rows with this username
        and session key, which ends the session. */
    method DeleteAccount(username: string, key: int) returns (outcome: DeleteOutcome)
      requires Valid()
      modifies this`users
      ensures Valid()
      ensures SessionValid(old(users), username, key) ==>
        && outcome == AccountDeleted
        && users == DeleteSessions(old(users), username, key)
        && !SessionValid(users, username, key)
      ensures !SessionValid(old(users), username, key) ==>
        outcome == DeleteRefused && users == old(users)
    {
      if SessionValid(users, username, key) {
        DeleteEndsSession(users, username, key);
        users := DeleteSessions(users, username, key);
        outcome := AccountDeleted;
      } else {
        outcome := DeleteRefused;
      }
    }

    // -------------------------------------------------------------- catalog and stock

    /** add_new_book: a known title gains `added` copies, an unknown one is
        inserted with `added` copies; answers the title's book_id afterwards. */
    method AddNewBook(title: string, bookType: string, author: string, added: int) returns (id: nat)
      requires Valid()
      modifies this`inventory
      ensures Valid()
      ensures inventory == UpsertBook(old(inventory), title, bookType, author, added)
      ensures id == BookId(inventory, title) && InCatalog(inventory, id) && inventory[id - 1].title == title
    {
      var before := inventory;
      var existing := BookId(inventory, title);
      if existing != 0 {
        inventory := AdjustCopies(inventory, existing, added);
      } else {
        inventory := inventory + [Book(title, bookType, author, added)];
      }
      assert inventory == UpsertBook(before, title, bookType, author, added);
      id := BookId(inventory, title);
      assert id != 0 by {
        UpsertBookEffect(before, title, bookType, author, added);
      }
    }

    /** add_to_library: the (library, book) row gains `added` copies, or is
        inserted with `added` copies when there is none. */
    method AddToLibrary(library: int, book: int, added: int)
      requires Valid()
      modifies this`stock
      ensures Valid()
      ensures stock == UpsertStock(old(stock), library, book, added)
      ensures StockOf(stock, library, book) ==
        Some(match StockOf(old(stock), library, book) case Some(c) => c + added case None => added)
    {
      var copies := StockOf(stock, library, book);
      if copies.Some? {
        stock := AdjustStock(stock, library, book, added);
      } else {
        stock := stock + [StockRow(library, book, added)];
      }
      UpsertStockEffect(old(stock), library, book, added);
    }

    // -------------------------------------------------------------- lending

    /** checkout_book's scan: is one of the user's non-null due dates strictly
        before `date`? Stops at the first one found. */
    method HasOverdueBook(user: int, date: int) returns (overdue: bool)
      ensures overdue <==> Overdue(checkouts, user, date)
    {
      var dueDates := DueDates(checkouts, user);
      var found := 0;
      var i := 0;
      while i < |dueDates|
        invariant 0 <= i <= |dueDates|
        invariant found == 0
        invariant forall j | 0 <= j < i :: date <= dueDates[j]
      {
        if date > dueDates[i] {
          found := found + 1;
          break;
        }
        i := i + 1;
      }
      overdue := found == 1;
      if overdue {
        assert dueDates[i] in dueDates;
      }
    }

    /** add_due_date: every row of (user, book) becomes due two weeks after its own checkout date. */
    method AddDueDate(user: int, book: int)
      modifies this`checkouts
      ensures checkouts == SetDueDates(old(checkouts), user, book)
    {
      checkouts := SetDueDates(checkouts, user, book);
    }

    /** checkout_book: refused without a valid session, refused when the user has
        an overdue book; otherwise takes one copy off the catalog count and the
        branch count (with no floor at zero), inserts the checkout row and runs
        add_due_date. An unknown title gives book_id 0, whose updates match no row. */
    method CheckoutBook(library: int, title: string, username: string, key: int, date: int)
      returns (outcome: CheckoutOutcome)
      requires Valid()
      modifies this`inventory, this`stock, this`checkouts
      ensures Valid()
      ensures !SessionValid(users, username, key) ==>
        && outcome == NoAuthentication
        && inventory == old(inventory) && stock == old(stock) && checkouts == old(checkouts)
      ensures SessionValid(users, username, key) ==>
        var user := UserIdOf(users, username).value;
        var book := BookId(old(inventory), title);
        if Overdue(old(checkouts), user, date) then
          && outcome == OverdueBlock
          && inventory == old(inventory) && stock == old(stock) && checkouts == old(checkouts)
        else
          && outcome == CheckedOut(title)
          && inventory == AdjustCopies(old(inventory), book, -1)
          && stock == AdjustStock(old(stock), library, book, -1)
          && checkouts == SetDueDates(old(checkouts) + [NewLoan(library, book, user, date)], user, book)
      ensures outcome.CheckedOut? ==>
        var book := BookId(old(inventory), title);
        InCatalog(old(inventory), book) && StockOf(old(stock), library, book).Some? ==>
          forall b :: Balance(inventory, stock, b) == Balance(old(inventory), old(stock), b)
    {
      if !SessionValid(users, username, key) {
        return NoAuthentication;
      }
      var user := UserIdOf(users, username).value;
      var overdue := HasOverdueBook(user, date);
      if overdue {
        return OverdueBlock;
      }
      var book := BookId(inventory, title);
      Lend(library, book, user, date);
      outcome := CheckedOut(title);
    }

    /** The writes of a permitted checkout: one copy off the catalog count and
        the branch count, the checkout row, then add_due_date. */
    method Lend(library: int, book: int, user: int, date: int)
      requires Valid()
      modifies this`inventory, this`stock, this`checkouts
      ensures Valid()
      ensures inventory == AdjustCopies(old(inventory), book, -1)
      ensures stock == AdjustStock(old(stock), library, book, -1)
      ensures checkouts == SetDueDates(old(checkouts) + [NewLoan(library, book, user, date)], user, book)
      ensures InCatalog(old(inventory), book) && StockOf(old(stock), library, book).Some? ==>
        forall b :: Balance(inventory, stock, b) == Balance(old(inventory), old(stock), b)
    {
      if InCatalog(inventory, book) && StockOf(stock, library, book).Some? {
        TransferKeepsBalance(inventory, stock, library, book, -1);
      }
      AdjustStockKeyed(stock, library, book, -1);
      inventory := AdjustCopies(inventory, book, -1);
      stock := AdjustStock(stock, library, book, -1);
      checkouts := checkouts + [NewLoan(library, book, user, date)];
      AddDueDate(user, book);
    }

    /** apply_late_fees: reads the due date of the first row of (user, book), in
        any library; fails when there is no such row or its due date is null.
        When `date` is past the due date it writes the fee to every row of
        (user, book); otherwise it writes nothing. */
    method ApplyLateFees(user: int, book: int, date: int) returns (assessment: Option<Fees.Assessment>)
      modifies this`checkouts
      ensures var first := FirstLoan(old(checkouts), user, book);
        if first.None? || first.value.dueDate.None? then
          assessment.None? && checkouts == old(checkouts)
        else
          var due := first.value.dueDate.value;
          && assessment == Some(Fees.LateFee(due, date))
          && checkouts == if date > due then SetLateFees(old(checkouts), user, book, Fees.LateFee(due, date).feeCents)
                          else old(checkouts)
    {
      var first := FirstLoan(checkouts, user, book);
      if first.None? || first.value.dueDate.None? {
        return None;
      }
      var due := first.value.dueDate.value;
      var fee := Fees.LateFee(due, date);
      if date > due {
        checkouts := SetLateFees(checkouts, user, book, fee.feeCents);
      }
      assessment := Some(fee);
    }

    /** return_book: puts one copy back on the catalog count and the branch count,
        assesses the late fee, then stamps the return date and clears the due
        date on the rows of (library, book, user); answers the first row of
        (user, book). When the fee lookup fails the two count updates have
        already been committed. */
    method ReturnBook(library: int, book: int, user: int, date: int) returns (outcome: ReturnOutcome)
      requires Valid()
      modifies this`inventory, this`stock, this`checkouts
      ensures Valid()
      ensures inventory == AdjustCopies(old(inventory), book, 1)
      ensures stock == AdjustStock(old(stock), library, book, 1)
      ensures var first := FirstLoan(old(checkouts), user, book);
        if first.None? || first.value.dueDate.None? then
          outcome == FeeLookupFailed && checkouts == old(checkouts)
        else
          var due := first.value.dueDate.value;
          var fee := Fees.LateFee(due, date).feeCents;
          var assessed := if date > due then SetLateFees(old(checkouts), user, book, fee) else old(checkouts);
          && checkouts == RecordReturn(assessed, library, book, user, date)
          && outcome.Returned?
          && FirstLoan(checkouts, user, book) == Some(outcome.record)
      ensures InCatalog(old(inventory), book) && StockOf(old(stock), library, book).Some? ==>
        forall b :: Balance(inventory, stock, b) == Balance(old(inventory), old(stock), b)
    {
      if InCatalog(inventory, book) && StockOf(stock, library, book).Some? {
        TransferKeepsBalance(inventory, stock, library, book, 1);
      }
      AdjustStockKeyed(stock, library, book, 1);
      inventory := AdjustCopies(inventory, book, 1);
      stock := AdjustStock(stock, library, book, 1);
      var assessment := ApplyLateFees(user, book, date);
      if assessment.None? {
        return FeeLookupFailed;
      }
      var assessed := checkouts;
      checkouts := RecordReturn(checkouts, library, book, user, date);
      LoanIndexStable(checkouts, assessed, user, book);
      LoanIndexStable(assessed, old(checkouts), user, book);
      var row := FirstLoan(checkouts, user, book);
      outcome := Returned(row.value);
    }

    /** reserve_book: inserts the reservation exactly when the stored count for
        (library, book) is 0; a positive or negative count refuses, and a missing
        row fails. */
    method ReserveBook(library: int, book: int, user: int) returns (outcome: ReserveOutcome)
      modifies this`reservations
      ensures StockOf(stock, library, book).None? ==>
        outcome == NotStocked && reservations == old(reservations)
      ensures StockOf(stock, library, book) == Some(0) ==>
        outcome == Reserved && reservations == old(reservations) + [Reservation(library, book, user)]
      ensures StockOf(stock, library, book).Some? && StockOf(stock, library, book) != Some(0) ==>
        outcome == CopiesAvailable && reservations == old(reservations)
    {
      var copies := StockOf(stock, library, book);
      if copies.None? {
        return NotStocked;
      }
      if copies.value == 0 {
        reservations := reservations + [Reservation(library, book, user)];
        outcome := Reserved;
      } else {
        outcome := CopiesAvailable;
      }
    }

    // -------------------------------------------------------------- queries with loops

    /** total_books_at_library: adds up the stored counts of every title at `library`. */
    method TotalBooksAtLibrary(library: int) returns (count: int)
      ensures count == LibraryTotal(stock, library)
    {
      var copies := CopiesAt(stock, library);
      count := 0;
      for i := 0 to |copies|
        invariant count == Sum(copies[..i])
      {
        assert copies[..i + 1] == copies[..i] + [copies[i]];
        assert [copies[i]][1..] == [];
        SumAppend(copies[..i], [copies[i]]);
        count := count + copies[i];
      }
      assert copies[..|copies|] == copies;
      SumOfCopiesAt(stock, library);
    }

    /** get_libraries_with_book: the names of the branches stocking `book`, joined with ", ". */
    method LibrariesWithBook(book: int) returns (s: string)
      ensures s == Listing.Join(Listing.StockedBranchNames(stock, branches, book))
    {
      var libraries := Listing.StockedBranchNames(stock, branches, book);
      s := "";
      var index := 0;
      for i := 0 to |libraries|
        invariant index == i
        invariant s == Listing.Join(libraries[..i])
      {
        assert libraries[..i + 1] == libraries[..i] + [libraries[i]];
        if index == 0 {
          s := libraries[i];
          index := index + 1;
        } else if index < |libraries| {
          Listing.JoinSnoc(libraries[..i], libraries[i]);
          s := s + Listing.Separator + libraries[i];
          index := index + 1;
        }
      }
      assert libraries[..|libraries|] == libraries;
    }
  }
}
