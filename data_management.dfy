/**
  The data side of the statement run: the account number of the index
  workbook rewritten into the key form of the accounts table, the inner join
  of the two tables on that key, and the retry schedule of the SQL call that
  fetches the accounts.
*/
module DataManagement {
  import opened Wrappers
  import opened Text

  // ---------------------------------------------------------------- account key

  /**
    `get_index_data`'s treatment of the `conta` column: zero-fill the text to
    six characters, then put a hyphen in front of its last character.
  */
  function NormalizeConta(conta: string): (r: string)
    ensures |r| == Max(6, |conta|) + 1 && r[|r| - 2] == '-'
  {
    var z := ZFill(conta, 6);
    z[..|z| - 1] + "-" + z[|z| - 1..]
  }

  /** The key with its hyphen deleted is the zero-filled text. */
  lemma NormalizeContaUnhyphen(conta: string)
    ensures var r := NormalizeConta(conta);
      r[..|r| - 2] + r[|r| - 1..] == ZFill(conta, 6)
  {
    var z := ZFill(conta, 6);
    var r := NormalizeConta(conta);
    assert r[..|r| - 2] == z[..|z| - 1];
    assert r[|r| - 1..] == z[|z| - 1..];
  }

  /**
    A number of at most six digits becomes five digits, a hyphen and one
    digit; the padding only puts '0's in front.
  */
  lemma NormalizeContaShort(conta: string)
    requires AllDigits(conta) && |conta| <= 6
    ensures var r := NormalizeConta(conta);
      |r| == 7 && r[5] == '-' && AllDigits(r[..5]) && IsDigit(r[6]) &&
      r[..5] + r[6..] == Repeat('0', 6 - |conta|) + conta
  {
    ZFillUnsigned(conta, 6);
    NormalizeContaUnhyphen(conta);
    var z := ZFill(conta, 6);
    var r := NormalizeConta(conta);
    forall i | 0 <= i < 6 ensures IsDigit(z[i]) {
      if i >= 6 - |conta| {
        assert z[i] == conta[i - (6 - |conta|)];
      }
    }
    assert r[..5] == z[..5];
  }

  /** A key text already six characters long gains no zeros: only the hyphen goes in. */
  lemma NormalizeContaLong(conta: string)
    requires |conta| >= 6
    ensures NormalizeConta(conta) == conta[..|conta| - 1] + "-" + [conta[|conta| - 1]]
  {
  }

  /** `astype(str)` of a whole-number cell, then the key treatment. */
  function NormalizeNumber(n: int): (r: string)
    ensures |r| >= 7
  {
    NormalizeConta(IntToStr(n))
  }

  /**
    For an account number below a million, the key still denotes that number:
    reading its digits with the hyphen deleted gives it back.
  */
  lemma NormalizeNumberDenotes(n: nat)
    requires n < 1000000
    ensures var r := NormalizeNumber(n);
      |r| == 7 && AllDigits(r[..5] + r[6..]) && DigitsValue(r[..5] + r[6..]) == n
  {
    var s := NatDigits(n);
    NatDigitsShort(n);
    NormalizeContaShort(s);
    var r := NormalizeNumber(n);
    var z := Repeat('0', 6 - |s|) + s;
    assert r[..5] + r[6..] == z;
    assert AllDigits(z) by {
      assert r[..5] + r[6..] == r[..5] + [r[6]];
    }
    LeadingZeros(6 - |s|, s);
    NatDigitsRoundTrip(n);
  }

  /** A number below a million has at most six digits. */
  lemma {:induction false} NatDigitsShort(n: nat)
    ensures n < 1000000 ==> |NatDigits(n)| <= 6
    ensures n < 100000 ==> |NatDigits(n)| <= 5
    ensures n < 10000 ==> |NatDigits(n)| <= 4
    ensures n < 1000 ==> |NatDigits(n)| <= 3
    ensures n < 100 ==> |NatDigits(n)| <= 2
  {
    if n >= 10 {
      NatDigitsShort(n / 10);
    }
  }

  /** Leading zeros do not change the number a digit string denotes. */
  lemma {:induction false} LeadingZeros(k: nat, s: string)
    requires AllDigits(s)
    ensures AllDigits(Repeat('0', k) + s)
    ensures DigitsValue(Repeat('0', k) + s) == DigitsValue(s)
    decreases |s|
  {
    var z := Repeat('0', k);
    assert AllDigits(z + s) by {
      forall i | 0 <= i < |z + s| ensures IsDigit((z + s)[i]) {
        if i >= k { assert (z + s)[i] == s[i - k]; }
      }
    }
    if s == [] {
      assert z + s == z;
      Zeros(k);
    } else {
      var s' := s[..|s| - 1];
      assert (z + s)[..|z + s| - 1] == z + s';
      LeadingZeros(k, s');
    }
  }

  lemma {:induction false} Zeros(k: nat)
    ensures AllDigits(Repeat('0', k)) && DigitsValue(Repeat('0', k)) == 0
  {
    if k > 0 {
      assert Repeat('0', k)[..k - 1] == Repeat('0', k - 1);
      Zeros(k - 1);
    }
  }

  // ---------------------------------------------------------------- tables

  /** A table row: its `conta` key and the rest of its columns by name. */
  datatype Row = Row(conta: string, columns: map<string, string>)

  /** A row of the merged table: the index row and the account row it was matched with. */
  datatype Joined = Joined(index: Row, account: Row)

  /**
    `get_index_data`: every row's key normalised, so that it has its hyphen
    second to last, and every other column kept.
  */
  function NormalizeKeys(rows: seq<Row>): (r: seq<Row>)
    ensures |r| == |rows|
    ensures forall i :: 0 <= i < |rows| ==>
      r[i].conta == NormalizeConta(rows[i].conta) && r[i].columns == rows[i].columns
    ensures forall i :: 0 <= i < |r| ==> |r[i].conta| >= 7 && r[i].conta[|r[i].conta| - 2] == '-'
  {
    seq(|rows|, i requires 0 <= i < |rows| => rows[i].(conta := NormalizeConta(rows[i].conta)))
  }

  /** The account rows that share `l`'s key, each paired with `l`, in their order. */
  function Matches(l: Row, right: seq<Row>): (r: seq<Joined>)
    ensures |r| <= |right|
    ensures forall j :: j in r ==> j.index == l && j.account in right && j.account.conta == l.conta
  {
    if right == [] then []
    else (if right[0].conta == l.conta then [Joined(l, right[0])] else []) + Matches(l, right[1..])
  }

  /**
    `pd.merge(index, accounts, on='conta')`: an inner join; index rows keep
    their order, and each brings its partners in the order of the accounts.
  */
  function InnerJoin(left: seq<Row>, right: seq<Row>): (r: seq<Joined>)
    ensures forall j :: j in r ==> j.index in left && j.account in right && j.index.conta == j.account.conta
  {
    if left == [] then [] else Matches(left[0], right) + InnerJoin(left[1..], right)
  }

  /** How many rows of `rows` carry key `k`. */
  function CountKey(rows: seq<Row>, k: string): nat
  {
    if rows == [] then 0 else (if rows[0].conta == k then 1 else 0) + CountKey(rows[1..], k)
  }

  lemma {:induction false} MatchesMembership(l: Row, right: seq<Row>, j: Joined)
    ensures j in Matches(l, right) <==> j.index == l && j.account in right && j.account.conta == l.conta
  {
    if right != [] {
      MatchesMembership(l, right[1..], j);
      assert right == [right[0]] + right[1..];
    }
  }

  /**
    A merged row pairs an index row and an account row with the same key, and
    every such pair is in the result: rows without a partner are dropped.
  */
  lemma {:induction false} JoinMembership(left: seq<Row>, right: seq<Row>, j: Joined)
    ensures j in InnerJoin(left, right) <==>
      j.index in left && j.account in right && j.index.conta == j.account.conta
  {
    if left != [] {
      MatchesMembership(left[0], right, j);
      JoinMembership(left[1..], right, j);
      assert left == [left[0]] + left[1..];
    }
  }

  /** Joining a table cut in two is joining each part, first part first: index order is kept. */
  lemma {:induction false} JoinAppend(l1: seq<Row>, l2: seq<Row>, right: seq<Row>)
    ensures InnerJoin(l1 + l2, right) == InnerJoin(l1, right) + InnerJoin(l2, right)
  {
    if l1 == [] {
      assert l1 + l2 == l2;
    } else {
      assert (l1 + l2)[1..] == l1[1..] + l2;
      JoinAppend(l1[1..], l2, right);
    }
  }

  /** One index row contributes exactly its partners, in the order of the accounts. */
  lemma JoinOne(l: Row, right: seq<Row>)
    ensures InnerJoin([l], right) == Matches(l, right)
  {
    assert [l][1..] == [];
  }

  lemma {:induction false} MatchesSize(l: Row, right: seq<Row>)
    ensures |Matches(l, right)| == CountKey(right, l.conta)
  {
    if right != [] {
      MatchesSize(l, right[1..]);
    }
  }

  /** The merged table has, for each index row, as many rows as it has partners. */
  lemma {:induction false} JoinSize(left: seq<Row>, right: seq<Row>)
    ensures |InnerJoin(left, right)| == PartnerTotal(left, right)
  {
    if left != [] {
      MatchesSize(left[0], right);
      JoinSize(left[1..], right);
    }
  }

  /** The number of partners, summed over the index rows. */
  function PartnerTotal(left: seq<Row>, right: seq<Row>): nat
  {
    if left == [] then 0 else CountKey(right, left[0].conta) + PartnerTotal(left[1..], right)
  }

  lemma {:induction false} MatchesMultiplicity(l: Row, right: seq<Row>, a: Row, b: Row)
    ensures multiset(Matches(l, right))[Joined(a, b)] ==
      if a == l && b.conta == l.conta then multiset(right)[b] else 0
  {
    if right != [] {
      var rest, j := right[1..], Joined(a, b);
      MatchesMultiplicity(l, rest, a, b);
      assert right == [right[0]] + rest;
      ConsCount(right[0], rest, b);
      if right[0].conta == l.conta {
        assert Matches(l, right) == [Joined(l, right[0])] + Matches(l, rest);
        ConsCount(Joined(l, right[0]), Matches(l, rest), j);
        assert (Joined(l, right[0]) == j) == (l == a && right[0] == b);
      } else {
        assert Matches(l, right) == Matches(l, rest);
        assert right[0] == b ==> b.conta != l.conta;
      }
    }
  }

  lemma ConsCount<T>(x: T, s: seq<T>, y: T)
    ensures multiset([x] + s)[y] == (if x == y then 1 else 0) + multiset(s)[y]
  {
    assert multiset([x] + s) == multiset([x]) + multiset(s);
  }

  /**
    Each pair of an index row and an account row with the same key appears
    as often as the product of their multiplicities; pairs with different
    keys never appear.
  */
  lemma {:induction false} JoinMultiplicity(left: seq<Row>, right: seq<Row>, a: Row, b: Row)
    ensures multiset(InnerJoin(left, right))[Joined(a, b)] ==
      if a.conta == b.conta then multiset(left)[a] * multiset(right)[b] else 0
  {
    if left != [] {
      var rest := left[1..];
      var j := Joined(a, b);
      var h := if left[0] == a then 1 else 0;
      var m := multiset(right)[b];
      var mm, tt := multiset(Matches(left[0], right))[j], multiset(InnerJoin(rest, right))[j];
      assert multiset(InnerJoin(left, right))[j] == mm + tt by {
        assert InnerJoin(left, right) == Matches(left[0], right) + InnerJoin(rest, right);
      }
      assert multiset(left)[a] == h + multiset(rest)[a] by {
        assert left == [left[0]] + rest;
      }
      assert mm == if a.conta == b.conta then h * m else 0 by {
        MatchesMultiplicity(left[0], right, a, b);
      }
      assert tt == if a.conta == b.conta then multiset(rest)[a] * m else 0 by {
        JoinMultiplicity(rest, right, a, b);
      }
      Distribute(h, multiset(rest)[a], m);
    }
  }

  lemma Distribute(h: int, t: int, m: int)
    ensures (h + t) * m == h * m + t * m
  {
  }

  predicate UniqueKeys(rows: seq<Row>)
  {
    forall i, j :: 0 <= i < j < |rows| ==> rows[i].conta != rows[j].conta
  }

  lemma {:induction false} UniqueKeyCount(rows: seq<Row>, k: string)
    requires UniqueKeys(rows)
    ensures CountKey(rows, k) <= 1
  {
    if rows != [] {
      UniqueKeyCount(rows[1..], k);
      if rows[0].conta == k {
        NoKey(rows[1..], k);
      }
    }
  }

  lemma {:induction false} NoKey(rows: seq<Row>, k: string)
    requires forall i :: 0 <= i < |rows| ==> rows[i].conta != k
    ensures CountKey(rows, k) == 0
  {
    if rows != [] {
      NoKey(rows[1..], k);
    }
  }

  /** When each account occurs once in the accounts table, the merge has at most one row per index row. */
  lemma {:induction false} JoinUniqueBound(left: seq<Row>, right: seq<Row>)
    requires UniqueKeys(right)
    ensures |InnerJoin(left, right)| <= |left|
  {
    JoinSize(left, right);
    PartnerTotalBound(left, right);
  }

  lemma {:induction false} PartnerTotalBound(left: seq<Row>, right: seq<Row>)
    requires UniqueKeys(right)
    ensures PartnerTotal(left, right) <= |left|
  {
    if left != [] {
      UniqueKeyCount(right, left[0].conta);
      PartnerTotalBound(left[1..], right);
    }
  }

  /** With a repeated key the merge can outgrow both tables. */
  lemma JoinCanOutgrow()
    ensures var l := Row("00001-2", map[]);
      var r1 := Row("00001-2", map["saldo" := "1"]);
      var r2 := Row("00001-2", map["saldo" := "2"]);
      |InnerJoin([l, l], [r1, r2])| == 4
  {
    var l := Row("00001-2", map[]);
    var r1 := Row("00001-2", map["saldo" := "1"]);
    var r2 := Row("00001-2", map["saldo" := "2"]);
    JoinSize([l, l], [r1, r2]);
    assert [l, l][1..] == [l];
    assert [r1, r2][1..] == [r2];
    assert CountKey([r2], l.conta) == 1;
    assert CountKey([r1, r2], l.conta) == 2;
    assert PartnerTotal([l], [r1, r2]) == 2;
  }

  /**
    `create_cota_capital`: the merged rows are exactly the pairs of a
    normalised index row and an account row with the same key, so every key
    has its hyphen second to last; an account whose key lacks that shape is
    never reported.
  */
  function CreateCotaCapital(index: seq<Row>, accounts: seq<Row>): (r: seq<Joined>)
    ensures forall j :: j in r ==>
      j.account in accounts && j.account.conta == j.index.conta &&
      |j.account.conta| >= 7 && j.account.conta[|j.account.conta| - 2] == '-'
    ensures forall j :: j in r <==>
      j.index in NormalizeKeys(index) && j.account in accounts && j.index.conta == j.account.conta
  {
    var keyed := NormalizeKeys(index);
    assert forall j :: j in InnerJoin(keyed, accounts) <==>
      j.index in keyed && j.account in accounts && j.index.conta == j.account.conta by {
      forall j ensures j in InnerJoin(keyed, accounts) <==>
        j.index in keyed && j.account in accounts && j.index.conta == j.account.conta {
        JoinMembership(keyed, accounts, j);
      }
    }
    InnerJoin(keyed, accounts)
  }

  // ---------------------------------------------------------------- SQL retries

  /** What the model keeps of a SQL answer: `status.state`. */
  datatype Reply = Reply(state: string)

  /** One `sql_statements` call: how many posts it made, the sleeps between them, and the response returned. */
  datatype Call = Call(posts: nat, sleeps: seq<int>, response: Reply)

  const Succeeded := "SUCCEEDED"
  const Select := "SELECT"

  /** Whether the retry loop is entered at all: the first word is exactly `SELECT`. */
  predicate IsSelect(statement: string)
    ensures IsSelect(statement) ==>
      var t := TrimLeft(statement);
      |t| >= |Select| && t[..|Select|] == Select && (|t| == |Select| || IsSpace(t[|Select|]))
  {
    FirstWord(statement) == Some(Select)
  }

  /**
    The number of extra posts, as written: the state tested by the loop is the
    one decoded from the first answer and never refreshed, so once the loop is
    entered it runs until the counter reaches `tries`.
  */
  function RetriesAsWritten(statement: string, tries: int, first: Reply): (n: nat)
    ensures n <= Max(0, tries)
    ensures n > 0 ==> IsSelect(statement) && first.state != Succeeded
  {
    if IsSelect(statement) && first.state != Succeeded then Max(0, tries) else 0
  }

  /** The sleep before the k-th extra post (k from 1) is `k * tries * 10` seconds. */
  function Schedule(tries: int, n: nat): (s: seq<int>)
    ensures |s| == n
  {
    seq(n, k requires 0 <= k < n => (k + 1) * tries * 10)
  }

  function Total(s: seq<int>): int
  {
    if s == [] then 0 else Total(s[..|s| - 1]) + s[|s| - 1]
  }

  /** A full run of retries sleeps `5 * tries * tries * (tries + 1)` seconds in all. */
  lemma {:induction false} ScheduleTotal(tries: int, n: nat)
    ensures 2 * Total(Schedule(tries, n)) == 10 * tries * n * (n + 1)
  {
    if n > 0 {
      assert Schedule(tries, n)[..n - 1] == Schedule(tries, n - 1);
      ScheduleTotal(tries, n - 1);
    }
  }

  /**
    `Databricks.sql_statements`. `post(k)` is the answer to the k-th post
    (0 for the first); a statement with no word raises `IndexError` after the
    first post.
  */
  method SqlStatements(statement: string, tries: int, post: nat -> Reply) returns (r: Result<Call, string>)
    ensures r.Failure? <==> FirstWord(statement).None?
    ensures r.Success? ==>
      var n := RetriesAsWritten(statement, tries, post(0));
      r.value == Call(1 + n, Schedule(tries, n), post(n))
  {
    var response := post(0);
    var state := response.state;
    var word := FirstWord(statement);
    if word.None? {
      return Failure("IndexError");
    }
    var posts := 1;
    var sleeps: seq<int> := [];
    if word.value == Select {
      var currentTry := 0;
      while currentTry < tries && state != Succeeded
        invariant 0 <= currentTry <= Max(0, tries)
        invariant state == post(0).state
        invariant currentTry > 0 ==> state != Succeeded
        invariant posts == 1 + currentTry && sleeps == Schedule(tries, currentTry)
        invariant response == post(currentTry)
      {
        currentTry := currentTry + 1;
        sleeps := sleeps + [currentTry * tries * 10];
        response := post(currentTry);
        posts := posts + 1;
      }
    }
    return Success(Call(posts, sleeps, response));
  }

  /**
    The first answer pending and the second one succeeded: the written loop
    still posts `tries` more times and returns the last answer.
  */
  lemma RetriesIgnoreSuccess()
    ensures var post := (k: nat) => if k == 0 then Reply("PENDING") else Reply(Succeeded);
      RetriesAsWritten("SELECT 1", 3, post(0)) == 3 && IntendedRetries("SELECT 1", 3, post) == 1
  {
    FirstWordOf(Select, " 1");
    assert Select + " 1" == "SELECT 1";
  }

  /** The first `k` in `from..tries` whose answer succeeded, or `tries`. */
  function FirstSuccess(post: nat -> Reply, from: nat, tries: nat): (k: nat)
    requires from <= tries
    ensures from <= k <= tries
    ensures forall i :: from <= i < k ==> post(i).state != Succeeded
    ensures k < tries ==> post(k).state == Succeeded
    decreases tries - from
  {
    if from == tries || post(from).state == Succeeded then from else FirstSuccess(post, from + 1, tries)
  }

  /** The number of extra posts when each answer is read: stop at the first success. */
  function IntendedRetries(statement: string, tries: int, post: nat -> Reply): (n: nat)
    ensures n <= Max(0, tries)
  {
    if IsSelect(statement) then FirstSuccess(post, 0, Max(0, tries)) else 0
  }

  /**
    `sql_statements` with the state decoded from each new answer: it retries
    only while the latest answer has not succeeded, at most `tries` times.
  */
  method SqlStatementsIntended(statement: string, tries: int, post: nat -> Reply) returns (r: Result<Call, string>)
    ensures r.Failure? <==> FirstWord(statement).None?
    ensures r.Success? ==>
      var n := r.value.posts - 1;
      r.value.posts >= 1 && n <= Max(0, tries) &&
      (n > 0 ==> IsSelect(statement)) &&
      (forall i :: 0 <= i < n ==> post(i).state != Succeeded) &&
      (IsSelect(statement) && n < tries ==> post(n).state == Succeeded) &&
      r.value.sleeps == Schedule(tries, n) && r.value.response == post(n)
    ensures r.Success? ==> r.value.posts - 1 == IntendedRetries(statement, tries, post)
  {
    var response := post(0);
    var word := FirstWord(statement);
    if word.None? {
      return Failure("IndexError");
    }
    var posts := 1;
    var sleeps: seq<int> := [];
    if word.value == Select {
      var currentTry := 0;
      while currentTry < tries && response.state != Succeeded
        invariant 0 <= currentTry <= Max(0, tries)
        invariant forall i :: 0 <= i < currentTry ==> post(i).state != Succeeded
        invariant posts == 1 + currentTry && sleeps == Schedule(tries, currentTry)
        invariant response == post(currentTry)
      {
        currentTry := currentTry + 1;
        sleeps := sleeps + [currentTry * tries * 10];
        response := post(currentTry);
        posts := posts + 1;
      }
      assert currentTry == FirstSuccess(post, 0, Max(0, tries));
    }
    return Success(Call(posts, sleeps, response));
  }

  /** The intended count is the one `SqlStatementsIntended` realises, and never exceeds the written one. */
  lemma IntendedWithinWritten(statement: string, tries: int, post: nat -> Reply)
    ensures IntendedRetries(statement, tries, post) <= RetriesAsWritten(statement, tries, post(0))
    ensures post(0).state != Succeeded && IsSelect(statement) ==>
      (IntendedRetries(statement, tries, post) == RetriesAsWritten(statement, tries, post(0)) <==>
       forall i :: 0 < i < tries ==> post(i).state != Succeeded)
  {
    if IsSelect(statement) && tries > 0 && post(0).state == Succeeded {
      assert FirstSuccess(post, 0, tries) == 0;
    }
  }
}
