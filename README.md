# Lending ledger of the library system

This project models the lending ledger of `src/db/library.py` in Dafny. The
ledger keeps five tables:

- the catalog (`inventory`): one row per title with a system-wide copy count
- the per-branch counts (`library_stock`)
- the loan history (`checkout`)
- the reservations (`reserve`)
- the accounts (`users`)

The ledger changes them through single SQL statements. The model is laid out
as follows:

- `tables.dfy`: one datatype per table row, one function per UPDATE/INSERT/DELETE
  the ledger issues, and lemmas about what each update does to the counts,
  keys and rows.
- `fees.dfy`: the late-fee rule, with dates as day numbers and money in cents.
- `listing.dfy`: the ", "-joined "available at" list of a title.
- `search.dfy`: the combined genre + author/title search.
- `ledger.dfy`: class `Library`, whose fields are the tables. Each operation
  is a method that reassigns the tables in the order the source commits its
  statements.
  - A statement that raises in the source ends the method with a failure
    outcome, and the statements committed before it stay in effect.
  - The message strings and exceptions of the source become outcome
    datatypes.

Modelling choices:

- A title's `book_id` is its position in `inventory` plus one. The key is a
  serial, and no operation deletes a catalog row.
- `library_stock` keeps `(library_id, book_id)` unique, as `Library.Valid()`
  states. `add_to_library` inserts only when `get_book_copies` finds no row.
- `users.id` comes from a serial counter.
- The SHA-512 hex digest is a function given to the constructor.
- The session key from `secrets.randbits(32)` is a method argument in
  `[0, 2^32)`.
- Dates are integer day numbers. `check_out_date + interval '2 weeks'` is
  `+ 14`.
- Fees are integer cents. Every fee the rule produces is a multiple of
  $0.25, so the source's float values are represented exactly.

Behaviour of the code that the model keeps as it is:

- Checkout has no stock floor, so counts can go below zero.
- A return is not matched against an open loan.
- A return whose fee lookup fails has already credited the counts.
- A reservation is refused for any stored count other than 0, negative ones
  included.
- Each count update matches only the rows it names. The catalog update needs
  the title in the catalog, and the branch update needs a `(library, book)`
  row. An unknown title has book id 0 and moves neither count. A known title
  at a branch without a row moves only the catalog count.
- No operation keeps the catalog count equal to the sum of the branch counts:
  `add_new_book` and `add_to_library` move them independently. Lending keeps
  the difference between the two (`Tables.Balance`) unchanged, but only when
  both the catalog row and the branch row exist (`Tables.TransferKeepsBalance`).
- The fee's low rate lasts six days, as the code has it, not "the first week"
  as its comment says.

## Model

| member | source | states |
|---|---|---|
| Fees.FeeCents | src/db/library.py:679-683 | The fee is 0 exactly for 0 days late, and every fee is a whole number of quarter-dollars. |
| Fees.LateFee | src/db/library.py:666-694 | Returned on or before the due date: the assessment is (0 days, 0 cents), and this holds in both directions. Returned after it: the days late are the difference, and the fee is positive and equals the sum of the daily rates of those days. |
| Fees.FeeIsSumOfDailyRates | src/db/library.py:679-683 | The closed-form fee equals the sum over each late day of its rate: 25 cents for days 1-6, 200 cents from day 7. |
| Fees.AccruedMonotone | src/db/library.py:679-683 | The day-by-day accrued fee never decreases with more days. |
| Fees.FeeMonotone | src/db/library.py:679-683 | The fee is non-decreasing in days late. |
| Fees.LateFeeMonotone | src/db/library.py:675-692 | For a fixed due date, a later return never gives a smaller fee or fewer days late. |
| Fees.FeeStep | src/db/library.py:679-683 | Each extra late day adds exactly that day's rate. |
| Fees.FeeExamples | src/db/library.py:675-694 | On time gives (0, 0); 4 days late gives (4, $1.00); 15 days late gives (15, $19.50). |
| Tables.BookId | src/db/library.py:255-263 | 0 exactly when no row has the title. Otherwise the id of a row with that title, and no earlier row has it. |
| Tables.BookIdReadsTitles | src/db/library.py:255-263 | Book ids depend on the titles only. |
| Tables.AdjustCopies | src/db/library.py:409-411 | The catalog keeps its length, and book `id`'s count moves by delta when the id is in the catalog and not at all otherwise. |
| Tables.UpsertBook | src/db/library.py:528-546 | A known title keeps the catalog's length. An unknown title adds one row, at the end, with that title. |
| Tables.AdjustCopiesEffect | src/db/library.py:409-411 | The catalog update gives book `id`'s row its count plus delta and leaves every other row, and every other column, unchanged. Titles and every book id stay as they were. |
| Tables.UpsertBookEffect | src/db/library.py:528-546 | After add_new_book the title has an id. A known title keeps its id, and its row gains the copies with every other column kept. An unknown title gets the next id, in a new last row with the given title, book type, author and copies. Every other row is unchanged. |
| Tables.StockIndex | src/db/library.py:213-218 | get_book_copies reads the first row of (library, book): no earlier row has that key. |
| Tables.AdjustStock | src/db/library.py:414-418 | The branch-count update keeps the number of rows. |
| Tables.UpsertStock | src/db/library.py:556-573 | add_to_library keeps the number of rows when the key has one, and adds one row otherwise. |
| Tables.AdjustStockRows | src/db/library.py:414-418 | The branch-count update adds delta to each row of (library, book) and changes no other row. |
| Tables.AdjustStockKeyed | src/db/library.py:414-418 | The branch-count update keeps (library, book) keys unique. |
| Tables.AdjustStockLookup | src/db/library.py:414-418 | The updated key's stored count moves by delta (a missing row stays missing). Every other key's count is unchanged. |
| Tables.AdjustStockBranchCopies | src/db/library.py:414-418 | With unique keys, the book's count summed over branches moves by delta when the row exists, and by nothing otherwise. |
| Tables.AdjustStockLibraryTotal | src/db/library.py:414-418 | With unique keys, the library's total moves by delta when the row exists, and by nothing otherwise. |
| Tables.TransferKeepsBalance | src/db/library.py:406-418 | Only when the title is in the catalog and has a row at the branch: a checkout or return moves the catalog count and the branch count by the same delta, and catalog minus branch total is unchanged for every book. |
| Tables.UpsertStockEffect | src/db/library.py:556-573 | add_to_library keeps keys unique. The key's count grows by the amount, or starts at it. Every other key is unchanged. The library total and the book's branch total grow by exactly the amount. |
| Tables.SumOfCopiesAt | src/db/library.py:642-653 | The sum of the library's book_copies column is the library's total. |
| Tables.SetDueDates | src/db/library.py:357-363 | add_due_date keeps the number of rows and changes no column but due_date. |
| Tables.SetLateFees | src/db/library.py:685-690 | The fee update keeps the number of rows. Each row of (user, book) is the same row with late_fees set to the fee, and every other row is unchanged. |
| Tables.RecordReturn | src/db/library.py:460-466 | The return update keeps the number of rows and changes no column but return_date and due_date. |
| Tables.LoanIndex | src/db/library.py:668-673 | The fee lookup reads the first row of (user, book): no earlier row matches. |
| Tables.DueDates | src/db/library.py:390-394 | A date is listed exactly when some row of the user has it as a non-null due date. |
| Tables.LoanIndexStable | src/db/library.py:685-689 | Updates that keep each row's user and book keep the first row of (user, book) in place. |
| Tables.CheckoutRowsLaw | src/db/library.py:357-363 | After the insert and add_due_date: the new row is last, due 14 days after the checkout date. Each earlier row of (user, book), returned or not, is the same row with its due date set to 14 days after its stored checkout date. Every other row is unchanged. |
| Tables.ReturnRowsLaw | src/db/library.py:460-466 | Each row of (library, book, user) is the same row with the return date set and the due date null. Every other row is unchanged. |
| Tables.SecondReturnFindsNoDueDate | src/db/library.py:441-475 | After a return at the first row's library, that row has a null due date, so a second return's fee lookup fails. |
| Tables.LateReturnRecordCarriesFee | src/db/library.py:685-690 | After the fee update and the return stamp, the first (user, book) row, which return_book hands back, carries the fee. |
| Tables.UserIdOf | src/db/library.py:65-66 | An id is found exactly when some row has the username, and it is that row's id. |
| Tables.DeleteSessions | src/db/library.py:338-343 | The rows kept are exactly those without this username and session key, each as many times as before. |
| Tables.SetSessionKey | src/db/library.py:37-42 | login's update keeps the number of rows and changes no column but session_key. |
| Tables.SetContactInfo | src/db/library.py:313-317 | edit_account's update keeps the number of rows and changes no column but contact_info. |
| Tables.LoginOpensSession | src/db/library.py:34-42 | A successful login makes the session valid and sets the key on every row with that username and digest. All other rows are unchanged. |
| Tables.DeleteEndsSession | src/db/library.py:331-348 | After the delete the session is no longer valid, and every other row remains. |
| Tables.EditKeepsSessions | src/db/library.py:312-317 | Each row of the username is the same row with the new contact info, every other row is unchanged, and every session stays valid or invalid as it was. |
| Listing.BranchNames | src/db/library.py:227-233 | A name is listed exactly when a branch with that id has it. |
| Listing.StockedBranchNames | src/db/library.py:227-233 | Every name listed is the name of some branch. |
| Listing.StockedBranchNamesMembers | src/db/library.py:227-233 | A name is listed exactly when a stock row of the book sits at a branch of that name, whatever its count. |
| Listing.Join | src/db/library.py:235-246 | The joined string of a non-empty list starts with the first name. |
| Listing.JoinSnoc | src/db/library.py:235-246 | Appending a name to a non-empty list appends ", " and the name to the joined string. |
| Listing.SplitJoin | src/db/library.py:235-246 | A non-empty list of comma-free names is recovered by cutting the joined string at its commas. |
| Search.Select | src/db/library.py:150-168 | The rows returned are exactly the inventory rows with that author (or title), within the genre when one is given. |
| Search.SearchByMultipleTerms | src/db/library.py:175-202 | None exactly for a genre keyword other than fiction or non-fiction. Otherwise the genre's books by that author when the term names an author, and the genre's books with that title when it does not. |
| Search.SearchByMultipleTermsAsWritten | src/db/library.py:175-202 | As written: None exactly for a genre keyword other than fiction or non-fiction. |
| Search.AsWrittenIgnoresTitles | src/db/library.py:175-202 | As written, either genre keyword answers the author match, empty or not. |
| Search.TitleSearchCounterexample | src/db/library.py:183-188 | A fiction title search for "The Lightning Thief" answers [] as written, and the book with the fall-back. |
| Ledger.Library.Login | src/db/library.py:25-48 | A row matching username and digest opens the session with the fresh key. Otherwise login is refused and nothing changes. |
| Ledger.Library.CreateAccount | src/db/library.py:275-293 | Refused with no change when a row has this name and username. Otherwise one row is appended with the next id, the digest and no session. |
| Ledger.Library.EditAccount | src/db/library.py:305-322 | With a valid session, every row of the username gets the contact info. Otherwise it is refused and nothing changes. |
| Ledger.Library.DeleteAccount | src/db/library.py:331-348 | With a valid session, deletes the session's rows and the session ends. Otherwise it is refused and nothing changes. |
| Ledger.Library.AddNewBook | src/db/library.py:528-546 | The catalog becomes the upsert of the title. The id returned is the title's book_id, a catalog row with that title. |
| Ledger.Library.AddToLibrary | src/db/library.py:556-573 | The branch counts become the upsert. The key's count is the old count plus the amount, or the amount. Keys stay unique. |
| Ledger.Library.HasOverdueBook | src/db/library.py:390-403 | The scan answers true exactly when some non-null due date of the user is strictly before the date. |
| Ledger.Library.AddDueDate | src/db/library.py:357-363 | The loan rows become those with every (user, book) row due 14 days after its own checkout date. |
| Ledger.Library.CheckoutBook | src/db/library.py:377-428 | Without a session: refused, nothing changes. With an overdue book: refused, nothing changes. Otherwise the catalog update and the branch update each subtract one from the rows they match, with no floor; the row is appended and due dates are set. The count balance is kept when the title is in the catalog and has a row at the branch. |
| Ledger.Library.Lend | src/db/library.py:404-426 | The permitted checkout's writes: minus one on the matching catalog row and the matching branch row, the new row, add_due_date. The count balance is kept when both rows exist. |
| Ledger.Library.ApplyLateFees | src/db/library.py:666-694 | Fails with no change when the first (user, book) row is missing or has a null due date. Otherwise answers the assessment, and writes the fee to every (user, book) row only when the return is late. |
| Ledger.Library.ReturnBook | src/db/library.py:441-475 | Always runs both count updates, each adding one to the rows it matches. A failed fee lookup leaves the loans as they were. Otherwise the fee is written if late, the return is recorded, and the answer is the first (user, book) row afterwards. The count balance is kept when the title is in the catalog and has a row at the branch. |
| Ledger.Library.ReserveBook | src/db/library.py:485-493 | Inserts the reservation exactly when the stored count is 0. Otherwise the reservation table is unchanged: a missing row fails, any other count refuses. |
| Ledger.Library.TotalBooksAtLibrary | src/db/library.py:642-653 | The loop's count is the library's total of stored copies. |
| Ledger.Library.LibrariesWithBook | src/db/library.py:227-246 | The accumulated string is the ", "-join of the names of the branches that stock the book. |

## Left out

- `rebuild_tables` and `main`: schema provisioning through the database utility module, which is not part of this model. The schema's foreign keys and cascades are not modelled, so a checkout of an unknown title inserts a row for book id 0.
- `insert_data_from_csv`: file I/O and CSV parsing.
- `report_on_all_libraries`, `checkout_table` and `generate_report`: printing and formatting; the report's average is a float division.
- The late-fee `print` in `return_book`: console output.
- `hashlib.sha512` and `secrets.randbits`: the digest is an uninterpreted function of the class and the key is an argument.
- `datetime.strptime` and the parsing of `str(timedelta)`: replaced by integer day numbers.
- The plain reads `get_all_users`, `get_all_books`, `get_user_books`, `get_user_history`, `get_user_contact_info`, `get_checked_out_books`, `get_fiction_books`, `get_nonfiction_books` and `get_all_histories`: single queries with no logic.
- `src/server.py`: HTTP routing only.
- Ledger.Library.ApplyLateFees, Ledger.Library.ReturnBook, Ledger.Library.LibrariesWithBook and Tables.SecondReturnFindsNoDueDate: the rows of an unordered query are taken in insertion order, with an UPDATE keeping a row in place. This covers the fee lookup, the row `return_book` hands back, `get_book_id`, `get_user_id`, and the order of the names `get_libraries_with_book` joins. The store promises no order without ORDER BY and may move an updated row, so with rows of one (user, book) at two branches the store can answer another row.
- Concurrency, transactions and rollback: each statement is modelled as committed as soon as it runs, and operations run one at a time.
- No checkout is refused for lack of stock, and no sum invariant between the catalog and the branch counts is kept, because the code has neither.
- Ledger.Library.ReturnBook: `return_book` indexes the first (user, book) row after its update; that row always exists once the fee lookup succeeded, so the `IndexError` path is not modelled.
- Ledger.Library.CheckoutBook: `get_user_id` raises when no row has the username; a valid session always has such a row, so that path is not modelled.

## Findings

| source | as written | input that shows it | evidently intended | confidence | as-written member | corrected member |
|---|---|---|---|---|---|---|
| src/db/library.py:175-202 | `search_by_multiple_terms` tests `search_by_author(string) != None`, but that query returns a list, empty when nothing matches and never None. The author branch is always taken and the title branch is unreachable. | `type = 'fiction'`, `string = 'The Lightning Thief'`, with that title in the catalog by another author: the answer is `[]` | Search by title when no book has that author | medium, not executed (the database helper's return value is inferred from its use) | Search.SearchByMultipleTermsAsWritten (Search.TitleSearchCounterexample) | Search.SearchByMultipleTerms |
