/// The "available at" string of a title (`get_libraries_with_book`): the names
/// of the branches that have a `library_stock` row for it, joined with ", ".
module Listing {
  import opened Tables

  const Separator: string := ", "

  /** The names of the branches whose library_id is `id`, in table order. */
  function BranchNames(branches: seq<Branch>, id: int): (names: seq<string>)
    ensures forall n :: n in names <==>
      exists j | 0 <= j < |branches| :: branches[j].id == id && branches[j].name == n
  {
    if branches == [] then []
    else
      var rest := BranchNames(branches[1..], id);
      assert forall j | 0 <= j < |branches| - 1 :: branches[1..][j] == branches[j + 1];
      (if branches[0].id == id then [branches[0].name] else []) + rest
  }

  /** The query of get_libraries_with_book: library_stock joined with libraries on
      library_id, for the rows of `book`, in row order. A branch is listed whatever
      its stored count, zero included. */
  function StockedBranchNames(stock: seq<StockRow>, branches: seq<Branch>, book: int): (names: seq<string>)
    ensures forall n | n in names :: exists j | 0 <= j < |branches| :: branches[j].name == n
  {
    if stock == [] then []
    else
      var here := if stock[0].book == book then BranchNames(branches, stock[0].library) else [];
      here + StockedBranchNames(stock[1..], branches, book)
  }

  /** A name is listed exactly when some stock row of the book sits at a branch of that name. */
  lemma {:induction false} StockedBranchNamesMembers(stock: seq<StockRow>, branches: seq<Branch>, book: int)
    ensures forall n :: n in StockedBranchNames(stock, branches, book) <==>
      exists i, j | 0 <= i < |stock| && 0 <= j < |branches| ::
        stock[i].book == book && branches[j].id == stock[i].library && branches[j].name == n
  {
    if stock != [] {
      StockedBranchNamesMembers(stock[1..], branches, book);
      assert forall i | 0 <= i < |stock| - 1 :: stock[1..][i] == stock[i + 1];
    }
  }

  /** The names one after another, a ", " between each two. */
  function Join(names: seq<string>): (s: string)
    ensures names != [] ==> |names[0]| <= |s| && s[..|names[0]|] == names[0]
  {
    if names == [] then ""
    else if |names| == 1 then names[0]
    else names[0] + Separator + Join(names[1..])
  }

  /** Position of the first comma of `s`, |s| when there is none. */
  function CommaIndex(s: string): (k: nat)
    ensures k <= |s|
    ensures forall j | 0 <= j < k :: s[j] != ','
    ensures k < |s| ==> s[k] == ','
  {
    if s == [] then 0
    else if s[0] == ',' then 0
    else 1 + CommaIndex(s[1..])
  }

  /** Cuts `s` at every comma and drops the character after each cut: the reading of a joined list. */
  function Split(s: string): seq<string>
    decreases |s|
  {
    var k := CommaIndex(s);
    if k == |s| then [s]
    else [s[..k]] + Split(s[(if k + 2 <= |s| then k + 2 else |s|)..])
  }

  predicate CommaFree(name: string)
  {
    forall j | 0 <= j < |name| :: name[j] != ','
  }

  /** Appending a name to a non-empty list appends ", " and the name to its join. */
  lemma {:induction false} JoinSnoc(names: seq<string>, last: string)
    requires names != []
    ensures Join(names + [last]) == Join(names) + Separator + last
  {
    assert (names + [last])[0] == names[0];
    if |names| == 1 {
      assert (names + [last])[1..] == [last];
    } else {
      assert (names + [last])[1..] == names[1..] + [last];
      JoinSnoc(names[1..], last);
    }
  }

  /** The joined string gives the names back, as long as there is at least one
      name and no name holds a comma. */
  lemma {:induction false} SplitJoin(names: seq<string>)
    requires names != []
    requires forall i | 0 <= i < |names| :: CommaFree(names[i])
    ensures Split(Join(names)) == names
  {
    var head := names[0];
    if |names| == 1 {
      assert CommaIndex(head) == |head|;
    } else {
      var rest := Join(names[1..]);
      var s := head + Separator + rest;
      assert s[|head|] == ',';
      assert CommaIndex(s) == |head|;
      assert s[..|head|] == head;
      assert s[|head| + 2..] == rest;
      SplitJoin(names[1..]);
    }
  }
}
