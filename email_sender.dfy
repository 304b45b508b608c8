/**
  Who is told that the statements are ready: the recipient list read from the
  `email` column of a table, and the `To` header built from it.
*/
module EmailSender {
  import opened Wrappers
  import opened Text

  /**
    A table by column name; a cell is `None` where pandas holds a missing
    value, otherwise the text `str(cell)` gives.
  */
  datatype Frame = Frame(columns: map<string, seq<Option<string>>>)

  const EmailColumn := "email"

  // ---------------------------------------------------------------- specification

  /** The pieces of one cell: every ';' turned into ',', then split on ','. */
  function CellPieces(cell: string): (r: seq<string>)
    ensures forall p :: p in r ==> ',' !in p && ';' !in p
  {
    var s := ReplaceChar(cell, ';', ',');
    var r := SplitOn(s, ',');
    assert forall p :: p in r ==> ';' !in p by {
      forall p | p in r ensures ';' !in p {
        JoinedPieces(r, p);
        PieceChars(r, p, s);
      }
    }
    r
  }

  /** Every piece of a split is a slice of the string that was split. */
  lemma JoinedPieces(r: seq<string>, p: string)
    requires p in r
    ensures forall c :: c in p ==> c in Join(r, [','])
  {
    JoinHolds(r, [','], p);
  }

  lemma {:induction false} JoinHolds(r: seq<string>, sep: string, p: string)
    requires p in r
    ensures forall c :: c in p ==> c in Join(r, sep)
    decreases |r|
  {
    if |r| > 1 && p != r[0] {
      assert p in r[1..];
      JoinHolds(r[1..], sep, p);
    }
  }

  lemma PieceChars(r: seq<string>, p: string, s: string)
    requires Join(r, [',']) == s
    requires forall c :: c in p ==> c in Join(r, [','])
    requires ';' !in s
    ensures ';' !in p
  {
  }

  /** The trimmed, non-blank pieces, in order. */
  function Clean(pieces: seq<string>): (r: seq<string>)
    ensures |r| <= |pieces|
    ensures forall x :: x in r ==> x != []
  {
    if pieces == [] then []
    else
      var t := Trim(pieces[|pieces| - 1]);
      Clean(pieces[..|pieces| - 1]) + (if t == [] then [] else [t])
  }

  /** Every address of every present cell, in order, before duplicates are removed. */
  function Addresses(cells: seq<Option<string>>): (r: seq<string>)
    ensures forall x :: x in r ==> x != []
  {
    if cells == [] then []
    else
      Addresses(cells[..|cells| - 1]) +
        match cells[|cells| - 1]
        case None => []
        case Some(s) => Clean(CellPieces(s))
  }

  /** `xs` with every element after its first occurrence dropped. */
  function Dedup(xs: seq<string>): (r: seq<string>)
    ensures |r| <= |xs|
    ensures forall x :: x in r ==> x in xs
  {
    if xs == [] then []
    else
      var d := Dedup(xs[..|xs| - 1]);
      if xs[|xs| - 1] in d then d else d + [xs[|xs| - 1]]
  }

  // ---------------------------------------------------------------- get_email_list_to

  /**
    `EmailSender.get_email_list_to`: the addresses of the `email` column,
    duplicates removed; `ValueError` when there is no such column.
  */
  method GetEmailListTo(df: Frame) returns (r: Result<seq<string>, string>)
    ensures r.Failure? <==> EmailColumn !in df.columns
    ensures r.Success? ==> r.value == Dedup(Addresses(df.columns[EmailColumn]))
  {
    if EmailColumn !in df.columns {
      return Failure("ValueError");
    }
    var cells := df.columns[EmailColumn];
    var emails: seq<string> := [];
    var i := 0;
    while i < |cells|
      invariant 0 <= i <= |cells|
      invariant emails == Addresses(cells[..i])
    {
      assert cells[..i + 1][..i] == cells[..i];
      if cells[i].Some? {
        emails := AppendCellAddresses(emails, cells[i].value);
      }
      i := i + 1;
    }
    assert cells[..i] == cells;
    var uniqueEmails := DedupLoop(emails);
    return Success(uniqueEmails);
  }

  /** The inner loop: the stripped, non-blank pieces of one cell appended in order. */
  method AppendCellAddresses(emails: seq<string>, cell: string) returns (r: seq<string>)
    ensures r == emails + Clean(CellPieces(cell))
  {
    r := emails;
    var pieces := CellPieces(cell);
    var j := 0;
    while j < |pieces|
      invariant 0 <= j <= |pieces|
      invariant r == emails + Clean(pieces[..j])
    {
      assert pieces[..j + 1][..j] == pieces[..j];
      var email := Trim(pieces[j]);
      if email != [] {
        r := r + [email];
      }
      j := j + 1;
    }
    assert pieces[..j] == pieces;
  }

  /** The `seen` loop: keeps each address the first time it comes. */
  method DedupLoop(emails: seq<string>) returns (uniqueEmails: seq<string>)
    ensures uniqueEmails == Dedup(emails)
  {
    var seen: set<string> := {};
    uniqueEmails := [];
    var i := 0;
    while i < |emails|
      invariant 0 <= i <= |emails|
      invariant uniqueEmails == Dedup(emails[..i])
      invariant seen == set x | x in uniqueEmails
    {
      assert emails[..i + 1][..i] == emails[..i];
      var email := emails[i];
      if email !in seen {
        seen := seen + {email};
        uniqueEmails := uniqueEmails + [email];
      }
      i := i + 1;
    }
    assert emails[..i] == emails;
  }

  // ---------------------------------------------------------------- properties

  /** An address survives deduplication exactly when it was there. */
  lemma {:induction false} DedupMembership(xs: seq<string>, x: string)
    ensures x in Dedup(xs) <==> x in xs
  {
    if xs != [] {
      var init := xs[..|xs| - 1];
      DedupMembership(init, x);
      assert xs == init + [xs[|xs| - 1]];
    }
  }

  /** No address is listed twice. */
  lemma {:induction false} DedupDistinct(xs: seq<string>)
    ensures var d := Dedup(xs); forall i, j :: 0 <= i < j < |d| ==> d[i] != d[j]
  {
    if xs != [] {
      var init := xs[..|xs| - 1];
      DedupDistinct(init);
      DedupMembership(init, xs[|xs| - 1]);
    }
  }

  /** The position of the first occurrence of `x` in `xs`. */
  function FirstIndex(xs: seq<string>, x: string): (k: nat)
    requires x in xs
    ensures k < |xs| && xs[k] == x && forall i :: 0 <= i < k ==> xs[i] != x
  {
    if xs[0] == x then 0 else 1 + FirstIndex(xs[1..], x)
  }

  lemma FirstIndexPrefix(xs: seq<string>, n: nat, x: string)
    requires n <= |xs| && x in xs[..n]
    ensures FirstIndex(xs, x) == FirstIndex(xs[..n], x)
  {
    var k := FirstIndex(xs[..n], x);
    assert xs[k] == x;
  }

  /** Addresses are listed in the order in which they first occur. */
  lemma {:induction false} DedupOrder(xs: seq<string>, i: nat, j: nat)
    requires i < j < |Dedup(xs)|
    ensures Dedup(xs)[i] in xs && Dedup(xs)[j] in xs
    ensures FirstIndex(xs, Dedup(xs)[i]) < FirstIndex(xs, Dedup(xs)[j])
  {
    var init := xs[..|xs| - 1];
    var d := Dedup(init);
    DedupKept(xs, i);
    if j < |d| {
      DedupKept(xs, j);
      DedupOrder(init, i, j);
    } else {
      DedupAdded(xs, j);
    }
  }

  /** An entry of the deduplication of all but the last address keeps its place and first index. */
  lemma DedupKept(xs: seq<string>, k: nat)
    requires xs != [] && k < |Dedup(xs[..|xs| - 1])|
    ensures var init := xs[..|xs| - 1]; var x := Dedup(init)[k];
      k < |Dedup(xs)| && Dedup(xs)[k] == x && x in init && FirstIndex(xs, x) == FirstIndex(init, x)
  {
    var init := xs[..|xs| - 1];
    var d := Dedup(init);
    assert Dedup(xs) == d || Dedup(xs) == d + [xs[|xs| - 1]];
    DedupMembership(init, d[k]);
    FirstIndexPrefix(xs, |xs| - 1, d[k]);
  }

  /** An entry past those is the last address, seen there for the first time. */
  lemma DedupAdded(xs: seq<string>, k: nat)
    requires xs != [] && |Dedup(xs[..|xs| - 1])| <= k < |Dedup(xs)|
    ensures Dedup(xs)[k] == xs[|xs| - 1] && FirstIndex(xs, xs[|xs| - 1]) == |xs| - 1
  {
    var init := xs[..|xs| - 1];
    var last := xs[|xs| - 1];
    assert Dedup(xs) == Dedup(init) + [last];
    assert last !in init by { DedupMembership(init, last); }
    assert forall m :: 0 <= m < |xs| - 1 ==> xs[m] == init[m];
  }

  /** A list without repeats is its own deduplication. */
  lemma {:induction false} DedupOfDistinct(xs: seq<string>)
    requires forall i, j :: 0 <= i < j < |xs| ==> xs[i] != xs[j]
    ensures Dedup(xs) == xs
  {
    if xs != [] {
      var init := xs[..|xs| - 1];
      DedupOfDistinct(init);
      assert xs[|xs| - 1] !in init;
      assert init + [xs[|xs| - 1]] == xs;
    }
  }

  /** A recipient address as the list holds it: non-blank, stripped, with no separator inside. */
  predicate CleanAddress(x: string)
  {
    x != [] && !IsSpace(x[0]) && !IsSpace(x[|x| - 1]) && ',' !in x && ';' !in x
  }

  lemma {:induction false} CleanEntries(pieces: seq<string>, x: string)
    requires forall p :: p in pieces ==> ',' !in p && ';' !in p
    ensures x in Clean(pieces) <==> x != [] && exists p :: p in pieces && Trim(p) == x
    ensures x in Clean(pieces) ==> CleanAddress(x)
  {
    if pieces != [] {
      var init := pieces[..|pieces| - 1];
      var p := pieces[|pieces| - 1];
      assert forall q :: q in init ==> q in pieces;
      CleanEntries(init, x);
      assert pieces == init + [p];
      if x == Trim(p) {
        TrimChars(p);
      }
    }
  }

  /** `x` is a stripped piece of some present cell. */
  predicate InCells(cells: seq<Option<string>>, x: string)
  {
    exists i, p :: 0 <= i < |cells| && cells[i].Some? && p in CellPieces(cells[i].value) && Trim(p) == x
  }

  predicate InCell(cell: Option<string>, x: string)
  {
    cell.Some? && exists p :: p in CellPieces(cell.value) && Trim(p) == x
  }

  lemma InCellsStep(cells: seq<Option<string>>, x: string)
    requires cells != []
    ensures InCells(cells, x) <==> InCells(cells[..|cells| - 1], x) || InCell(cells[|cells| - 1], x)
  {
    var n := |cells| - 1;
    var init := cells[..n];
    if InCells(cells, x) {
      var i, p :| 0 <= i < |cells| && cells[i].Some? && p in CellPieces(cells[i].value) && Trim(p) == x;
      if i < n {
        assert init[i] == cells[i];
      }
    }
    if InCells(init, x) {
      var i, p :| 0 <= i < |init| && init[i].Some? && p in CellPieces(init[i].value) && Trim(p) == x;
      assert cells[i] == init[i];
    }
    if InCell(cells[n], x) {
      var p :| p in CellPieces(cells[n].value) && Trim(p) == x;
      assert cells[n].Some? && p in CellPieces(cells[n].value) && Trim(p) == x;
    }
  }

  /**
    The addresses are exactly the non-blank stripped pieces of the present
    cells; a missing cell contributes nothing.
  */
  lemma {:induction false} AddressesFromCells(cells: seq<Option<string>>, x: string)
    ensures x in Addresses(cells) <==> x != [] && InCells(cells, x)
    ensures x in Addresses(cells) ==> CleanAddress(x)
  {
    if cells != [] {
      var n := |cells| - 1;
      AddressesFromCells(cells[..n], x);
      InCellsStep(cells, x);
      if cells[n].Some? {
        CleanEntries(CellPieces(cells[n].value), x);
      }
    }
  }

  /**
    The recipients are exactly the addresses found in the column, each a clean
    address and listed once.
  */
  lemma RecipientList(cells: seq<Option<string>>, x: string)
    ensures var r := Dedup(Addresses(cells));
      (x in r <==> x != [] && InCells(cells, x)) &&
      (x in r ==> CleanAddress(x)) &&
      (forall i, j :: 0 <= i < j < |r| ==> r[i] != r[j])
  {
    DedupMembership(Addresses(cells), x);
    AddressesFromCells(cells, x);
    DedupDistinct(Addresses(cells));
  }

  /** A clean address alone in a cell reads back as itself. */
  lemma SingleCell(x: string)
    requires CleanAddress(x)
    ensures Clean(CellPieces(x)) == [x]
  {
    assert ReplaceChar(x, ';', ',') == x;
    SplitOnAbsent(x, ',');
    TrimOfTrimmed(x);
    assert [x][..0] == [];
  }

  /** A column holding one address per cell. */
  function Singles(xs: seq<string>): (cells: seq<Option<string>>)
    ensures |cells| == |xs|
  {
    seq(|xs|, i requires 0 <= i < |xs| => Some(xs[i]))
  }

  lemma {:induction false} AddressesOfSingles(xs: seq<string>)
    requires forall i :: 0 <= i < |xs| ==> CleanAddress(xs[i])
    ensures Addresses(Singles(xs)) == xs
  {
    if xs != [] {
      var cells := Singles(xs);
      var n := |xs| - 1;
      assert cells[..n] == Singles(xs[..n]);
      assert Addresses(cells) == Addresses(cells[..n]) + Clean(CellPieces(xs[n])) by {
        assert cells[n] == Some(xs[n]);
      }
      assert Addresses(cells[..n]) == xs[..n] by {
        AddressesOfSingles(xs[..n]);
      }
      SingleCell(xs[n]);
      LastAppended(xs);
    }
  }

  /** Reading back the list, one address per cell, gives the same list. */
  lemma RereadIdempotent(cells: seq<Option<string>>)
    ensures var r := Dedup(Addresses(cells));
      Dedup(Addresses(Singles(r))) == r
  {
    var a := Addresses(cells);
    var r := Dedup(a);
    DedupDistinct(a);
    assert forall i :: 0 <= i < |r| ==> CleanAddress(r[i]) by {
      forall i | 0 <= i < |r| ensures CleanAddress(r[i]) {
        DedupMembership(a, r[i]);
        AddressesFromCells(cells, r[i]);
      }
    }
    AddressesOfSingles(r);
    DedupOfDistinct(r);
  }

  // ---------------------------------------------------------------- To header

  /** `send_email`'s `to_email`: a list of addresses or a single string. */
  datatype ToEmail = List(addresses: seq<string>) | Single(address: string)

  /** The `To` header and the envelope recipients `send_email` derives from `to_email`. */
  datatype Envelope = Envelope(toHeader: string, recipients: seq<string>)

  function ToHeader(to: ToEmail): (e: Envelope)
    ensures to.Single? ==> e.recipients == [to.address] && e.toHeader == to.address
    ensures to.List? ==> e.recipients == to.addresses
  {
    match to
    case List(xs) => Envelope(Join(xs, ", "), xs)
    case Single(s) => Envelope(s, [s])
  }

  /**
    The header of a list of clean addresses, read back the way a cell is read,
    gives the list again.
  */
  lemma HeaderRoundTrip(xs: seq<string>)
    requires forall i :: 0 <= i < |xs| ==> CleanAddress(xs[i])
    ensures Clean(CellPieces(ToHeader(List(xs)).toHeader)) == xs
  {
    var h := Join(xs, ", ");
    if xs == [] {
      assert h == "";
      SplitOnAbsent("", ',');
      assert Trim("") == "";
    } else {
      assert forall x :: x in xs ==> ',' !in x && ';' !in x;
      assert ", " == [','] + " ";
      SplitJoin(xs, ',', " ");
      assert ';' !in h by { JoinNoChar(xs, ", ", ';'); }
      assert ReplaceChar(h, ';', ',') == h;
      CleanPrefixed(xs);
    }
  }

  lemma {:induction false} JoinNoChar(xs: seq<string>, sep: string, c: char)
    requires c !in sep && forall x :: x in xs ==> c !in x
    ensures c !in Join(xs, sep)
    decreases |xs|
  {
    if |xs| > 1 {
      assert forall x :: x in xs[1..] ==> x in xs;
      JoinNoChar(xs[1..], sep, c);
      assert xs[0] in xs;
    } else if |xs| == 1 {
      assert xs[0] in xs;
    }
  }

  /** A last piece that strips to something adds that one address. */
  lemma CleanSnoc(ps: seq<string>)
    requires ps != [] && Trim(ps[|ps| - 1]) != []
    ensures Clean(ps) == Clean(ps[..|ps| - 1]) + [Trim(ps[|ps| - 1])]
  {
  }

  lemma LastAppended<T>(xs: seq<T>)
    requires xs != []
    ensures xs[..|xs| - 1] + [xs[|xs| - 1]] == xs
  {
  }

  /** Pieces that strip one by one to non-blank addresses clean to exactly those addresses. */
  lemma {:induction false} CleanPointwise(ps: seq<string>, xs: seq<string>)
    requires |ps| == |xs|
    requires forall i :: 0 <= i < |ps| ==> Trim(ps[i]) == xs[i] && xs[i] != []
    ensures Clean(ps) == xs
  {
    if ps != [] {
      var n := |ps| - 1;
      assert Clean(ps[..n]) == xs[..n] by {
        CleanPointwise(ps[..n], xs[..n]);
      }
      CleanSnoc(ps);
      LastAppended(xs);
    }
  }

  lemma CleanPrefixed(xs: seq<string>)
    requires |xs| >= 1 && forall i :: 0 <= i < |xs| ==> CleanAddress(xs[i])
    ensures Clean([xs[0]] + PrefixAll(" ", xs[1..])) == xs
  {
    var ps := [xs[0]] + PrefixAll(" ", xs[1..]);
    forall i | 0 <= i < |ps| ensures Trim(ps[i]) == xs[i] && xs[i] != [] {
      if i > 0 {
        assert ps[i] == [' '] + xs[i];
        TrimSpacePrefix(' ', xs[i]);
      }
      TrimOfTrimmed(xs[i]);
    }
    CleanPointwise(ps, xs);
  }
}
