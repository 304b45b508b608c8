/**
  The statement renderer: where each statement is filed, the per-branch,
  per-administrator count kept on the class across calls, and the text of
  every line the statement draws (money in cents, dates as `(y, m, d)`).
  Drawing itself (images, separators, fonts, the `y` coordinate) is not
  modelled; a statement is the list of strings it draws, top to bottom.
*/
module ReportGenerator {
  import opened Wrappers
  import opened Text
  import opened Money
  import opened Calendar

  /** One entry of `tipo_valor_data_movimentacao`; `amount` is the raw text printed. */
  datatype Movement = Movement(date: string, kind: string, amount: string)

  /** One consolidated row, as the renderer reads it. Amounts are in cents. */
  datatype Account = Account(
    agencia: real,
    administradora: string,
    conta: string,
    nome: string,
    endereco: string,
    municipio: string,
    capitalSocial: int,
    movimentacao: int,
    dataEmissao: Date,
    dataEmissaoText: string,
    movimentos: seq<Movement>)

  /** A statement written: its path, as components, and the lines it draws. */
  datatype PdfFile = PdfFile(path: seq<string>, lines: seq<string>)

  type Counts = map<string, map<string, nat>>

  const StatementsFolder := "Extratos de Cota Capital"
  const CompanyLine := "NOME_EMPRESA - EXTRATO DE CONTA CAPITAL"
  const NoMovementMessage := "NENHUMA MOVIMENTACAO REGISTRADA NESTE MES."
  const ClosingLabel := "SALDO ATUAL (R$):"
  const OuvidoriaPhone := "0800 000 0000"
  const FooterText := "Sicredi Vale Litoral - SC"

  // ---------------------------------------------------------------- filing

  /** `int(x)` of a float: truncation toward zero. */
  function Trunc(x: real): (t: int)
    ensures (t as real) <= x < (t as real) + 1.0 || (t as real) - 1.0 < x <= (t as real)
    ensures 0.0 <= x ==> 0 <= t && t as real <= x < t as real + 1.0
    ensures x < 0.0 ==> t <= 0 && t as real - 1.0 < x <= t as real
  {
    if x >= 0.0 then x.Floor else -((-x).Floor)
  }

  /** `str(int(float(row['agência']))).zfill(2)`: the branch folder key. */
  function AgenciaKey(agencia: real): (k: string)
    ensures |k| >= 2
    ensures 0.0 <= agencia ==> AllDigits(k) && DigitsValue(k) == agencia.Floor
  {
    var t := Trunc(agencia);
    var k := ZFill(IntToStr(t), 2);
    if 0.0 <= agencia then
      var ds := NatDigits(t);
      NatDigitsRoundTrip(t);
      assert AllDigits(k) && DigitsValue(k) == t by {
        if t < 100 {
          TwoDigitField(t);
        } else {
          assert |ds| >= 3 by {
            if |ds| < 3 { NatDigitsBelow(ds); }
          }
        }
      }
      k
    else k
  }

  /**
    A branch number in [0, 100) becomes exactly two digits that read back as
    its integer part; from 100 on it is the plain decimal integer part.
  */
  lemma AgenciaKeyShape(agencia: real)
    requires 0.0 <= agencia
    ensures var k := AgenciaKey(agencia);
      AllDigits(k) && DigitsValue(k) == agencia.Floor &&
      (agencia < 100.0 ==> |k| == 2) &&
      (100.0 <= agencia ==> k == NatDigits(agencia.Floor))
  {
    var t := Trunc(agencia);
    if agencia < 100.0 {
      TwoDigitField(t);
    }
  }

  /** Fewer than three digits denote a number below 100. */
  lemma NatDigitsBelow(ds: string)
    requires AllDigits(ds) && |ds| < 3
    ensures DigitsValue(ds) < 100
  {
    if ds != [] {
      var p := ds[..|ds| - 1];
      if p != [] { assert p[..|p| - 1] == []; }
    }
  }

  /** The path of a row's statement: `PATH_BASES/UAxx/Extratos de Cota Capital/<administradora>/<conta>.pdf`. */
  function PdfPath(pathBases: string, row: Account): (path: seq<string>)
    ensures |path| == 5 && path[0] == pathBases && path[1] == "UA" + AgenciaKey(row.agencia)
    ensures path[2] == StatementsFolder && path[3] == row.administradora && path[4] == row.conta + ".pdf"
  {
    [pathBases, "UA" + AgenciaKey(row.agencia), StatementsFolder, row.administradora, row.conta + ".pdf"]
  }

  /**
    Two rows get the same list of path components exactly when they agree
    on branch key, administrator and account.
  */
  lemma PdfPathSameIff(pathBases: string, r1: Account, r2: Account)
    ensures PdfPath(pathBases, r1) == PdfPath(pathBases, r2) <==>
      AgenciaKey(r1.agencia) == AgenciaKey(r2.agencia) &&
      r1.administradora == r2.administradora && r1.conta == r2.conta
  {
    var p1, p2 := PdfPath(pathBases, r1), PdfPath(pathBases, r2);
    if p1 == p2 {
      assert p1[1] == p2[1] && p1[4] == p2[4];
      var k1, k2 := AgenciaKey(r1.agencia), AgenciaKey(r2.agencia);
      assert k1 == ("UA" + k1)[2..] && k2 == ("UA" + k2)[2..];
      var c1, c2 := r1.conta, r2.conta;
      assert c1 == (c1 + ".pdf")[..|c1 + ".pdf"| - 4];
      assert c2 == (c2 + ".pdf")[..|c2 + ".pdf"| - 4];
    }
  }

  // ---------------------------------------------------------------- the counter

  /** The count of statements for branch key `a` and administrator `d` (0 when absent). */
  function Count(m: Counts, a: string, d: string): nat
  {
    if a in m && d in m[a] then m[a][d] else 0
  }

  /**
    One statement counted: the counter `[a][d]` goes up by one (from 0 when
    it is created) and every other counter and branch is left as it was.
  */
  function Bump(m: Counts, a: string, d: string): (r: Counts)
    ensures m.Keys <= r.Keys && a in r && d in r[a]
    ensures Count(r, a, d) == Count(m, a, d) + 1
  {
    var inner := if a in m then m[a] else map[];
    m[a := inner[d := Count(m, a, d) + 1]]
  }

  /** Only the branch `a` may be new, and no counter other than `[a][d]` changes. */
  lemma BumpEffect(m: Counts, a: string, d: string)
    ensures var r := Bump(m, a, d);
      r.Keys == m.Keys + {a} &&
      r[a].Keys == (if a in m then m[a].Keys else {}) + {d} &&
      (forall a' :: a' in m && a' != a ==> r[a'] == m[a']) &&
      (forall d' :: d' in r[a] && d' != d ==> r[a][d'] == m[a][d']) &&
      (forall a', d' :: Count(r, a', d') == Count(m, a', d') + (if a' == a && d' == d then 1 else 0))
  {
  }

  /** The counter a row is counted under: its branch key and its administrator. */
  function CounterKey(row: Account): (string, string)
  {
    (AgenciaKey(row.agencia), row.administradora)
  }

  function CounterKeys(rows: seq<Account>): (keys: seq<(string, string)>)
    ensures |keys| == |rows|
    ensures forall i :: 0 <= i < |rows| ==> keys[i] == CounterKey(rows[i])
  {
    seq(|rows|, i requires 0 <= i < |rows| => CounterKey(rows[i]))
  }

  lemma CounterKeysStep(rows: seq<Account>, i: nat)
    requires i < |rows|
    ensures CounterKeys(rows[..i + 1]) == CounterKeys(rows[..i]) + [CounterKey(rows[i])]
  {
  }

  /** Every key of `keys` counted in turn on top of `m`. */
  function Tally(m: Counts, keys: seq<(string, string)>): (r: Counts)
    ensures m.Keys <= r.Keys
  {
    if keys == [] then m
    else
      var last := keys[|keys| - 1];
      Bump(Tally(m, keys[..|keys| - 1]), last.0, last.1)
  }

  /** Each counter grows by exactly the number of times its key pair was counted. */
  lemma {:induction false} TallyCounts(m: Counts, keys: seq<(string, string)>, a: string, d: string)
    ensures Count(Tally(m, keys), a, d) == Count(m, a, d) + multiset(keys)[(a, d)]
  {
    if keys != [] {
      var prefix := keys[..|keys| - 1];
      var last := keys[|keys| - 1];
      assert keys == prefix + [last];
      assert multiset(keys) == multiset(prefix) + multiset{last};
      TallyCounts(m, prefix, a, d);
      BumpEffect(Tally(m, prefix), last.0, last.1);
    }
  }

  /** Counting two batches one after the other is counting them together: counts accumulate across calls. */
  lemma {:induction false} TallyAccumulates(m: Counts, first: seq<(string, string)>, second: seq<(string, string)>)
    ensures Tally(Tally(m, first), second) == Tally(m, first + second)
    decreases |second|
  {
    if second == [] {
      assert first + second == first;
    } else {
      var all := first + second;
      var second', last := second[..|second| - 1], second[|second| - 1];
      var before, joined := Tally(Tally(m, first), second'), Tally(m, first + second');
      assert before == joined by { TallyAccumulates(m, first, second'); }
      assert Tally(m, all) == Bump(joined, last.0, last.1) by {
        assert all[..|all| - 1] == first + second' && all[|all| - 1] == last;
      }
    }
  }

  // ---------------------------------------------------------------- lines

  /**
    A line the statement draws, top to bottom, holding the values it shows;
    `Render` gives its text. Balances are in cents.
  */
  datatype Line =
    | Company                                       // the title line
    | Member(conta: string, nome: string)           // "ASSOCIADO...: "
    | Address(endereco: string)                     // "ENDERECO....: "
    | City(municipio: string)                       // "CIDADE......: "
    | PeriodLine(start: Date, end: Date, emission: string)
    | Header                                        // the column titles
    | Opening(balance: int)                         // "SALDO ANTERIOR"
    | MovementRow(movement: Movement, balance: int) // one movement and the balance after it
    | NoMovement                                    // the "no movement" message
    | Closing(balance: int)                         // "SALDO ATUAL (R$):"
    | Ouvidoria
    | Footer

  /** `"{:<30}{:<40}{:>17}{:>17}{:>23}".format(a, b, c, d, e)`. */
  function Row5(a: string, b: string, c: string, d: string, e: string): (r: string)
    ensures |r| == Max(30, |a|) + Max(40, |b|) + Max(17, |c|) + Max(17, |d|) + Max(23, |e|)
    ensures EndsWith(r, e)
  {
    var x := PadRight(a, 30) + PadRight(b, 40) + PadLeft(c, 17) + PadLeft(d, 17);
    EndsWithField(x, e, 23);
    x + PadLeft(e, 23)
  }

  /**
    The text `drawString` receives for a line: every balance line ends with
    its balance in Brazilian format, and the table header and the "no
    movement" line span the 127 columns of the table.
  */
  function Render(line: Line): (r: string)
    ensures line.Opening? || line.MovementRow? || line.Closing? ==> EndsWith(r, Brazilian(line.balance))
    ensures line.Header? || line.NoMovement? ==> |r| == 127
  {
    match line
    case Company => CompanyLine
    case Member(conta, nome) => "ASSOCIADO...: " + ZFill(conta, 10) + " - " + nome
    case Address(endereco) => "ENDERECO....: " + endereco
    case City(municipio) => "CIDADE......: " + municipio + " - SC"
    case PeriodLine(start, end, emission) =>
      PadRight("PERIODO.....: " + FormatDate(start) + " a " + FormatDate(end), 30) +
        PadLeft("EMISSAO: " + emission, 90)
    case Header => Row5("DATA", "HISTORICO", "DEBITO", "CREDITO", "SALDO (R$)")
    case Opening(b) => Row5("", "SALDO ANTERIOR", "", "", Brazilian(b))
    case MovementRow(m, b) => Row5(m.date, m.kind, "", m.amount, Brazilian(b))
    case NoMovement =>
      PadRight("", 30) + PadRight(NoMovementMessage, 42) + PadLeft("", 15) + PadLeft("", 17) + PadLeft("", 23)
    case Closing(b) =>
      var x := PadRight("", 30) + PadRight("", 40) + PadLeft("", 17) + PadRight(ClosingLabel, 17);
      EndsWithField(x, Brazilian(b), 23);
      x + PadLeft(Brazilian(b), 23)
    case Ouvidoria => "Ouvidoria NOME_EMPRESA - " + OuvidoriaPhone
    case Footer => FooterText
  }

  function RenderAll(lines: seq<Line>): (texts: seq<string>)
    ensures |texts| == |lines|
  {
    seq(|lines|, i requires 0 <= i < |lines| => Render(lines[i]))
  }

  /**
    A table row whose first four fields fit shows the first field from
    column 0, the second from column 30 and the fourth ending at column 104,
    and ends with the fifth field, however wide: 127 characters when that
    one fits too. Fields are padded, never cut.
  */
  lemma Row5Fields(a: string, b: string, c: string, d: string, e: string)
    requires |a| <= 30 && |b| <= 40 && |c| <= 17 && |d| <= 17
    ensures var r := Row5(a, b, c, d, e);
      |r| == 104 + Max(23, |e|) && r[..|a|] == a && r[30..30 + |b|] == b &&
      r[104 - |d|..104] == d && r[|r| - |e|..] == e
  {
    var p1, p2, p3 := PadRight(a, 30), PadRight(b, 40), PadLeft(c, 17);
    var p4, p5 := PadLeft(d, 17), PadLeft(e, 23);
    var r := p1 + p2 + p3 + p4 + p5;
    assert r[..|a|] == a by {
      PadRightShape(a, 30);
      SliceInMiddle([], p1, p2 + p3 + p4 + p5, 0, |a|);
    }
    assert r[30..30 + |b|] == b by {
      PadRightShape(b, 40);
      SliceInMiddle(p1, p2, p3 + p4 + p5, 0, |b|);
    }
    assert r[104 - |d|..104] == d by {
      PadLeftShape(d, 17);
      SliceInMiddle(p1 + p2 + p3, p4, p5, 17 - |d|, 17);
    }
    assert r[|r| - |e|..] == e by {
      PadLeftShape(e, 23);
      SliceInMiddle(p1 + p2 + p3 + p4, p5, [], |p5| - |e|, |p5|);
    }
  }

  /**
    A movement line shows the movement's date from column 0, its kind from
    column 30, its amount exactly as written ending at column 104, and ends
    with the balance in Brazilian format.
  */
  lemma MovementRowLayout(m: Movement, b: int)
    requires |m.date| <= 30 && |m.kind| <= 40 && |m.amount| <= 17
    ensures var r := Render(MovementRow(m, b)); var s := Brazilian(b);
      |r| == 104 + Max(23, |s|) && r[..|m.date|] == m.date && r[30..30 + |m.kind|] == m.kind &&
      r[104 - |m.amount|..104] == m.amount && r[|r| - |s|..] == s
  {
    Row5Fields(m.date, m.kind, "", m.amount, Brazilian(b));
  }

  /** Whatever precedes it, a right-aligned field ends the text it closes. */
  lemma EndsWithField(x: string, e: string, w: int)
    ensures EndsWith(x + PadLeft(e, w), e)
  {
    var p := PadLeft(e, w);
    PadLeftShape(e, w);
    assert (x + p)[|x + p| - |e|..] == p[|p| - |e|..];
  }

  /**
    The closing line carries "SALDO ATUAL (R$):" at column 87 and ends with
    its balance in Brazilian format.
  */
  lemma ClosingLayout(b: int)
    ensures var r := Render(Closing(b)); var s := Brazilian(b);
      |r| == 104 + Max(23, |s|) && r[87..104] == ClosingLabel && r[|r| - |s|..] == s
  {
    var s := Brazilian(b);
    var c1 := PadRight("", 30) + PadRight("", 40) + PadLeft("", 17);
    var c2 := PadRight(ClosingLabel, 17);
    assert Render(Closing(b)) == (c1 + c2) + PadLeft(s, 23);
    assert (c1 + c2)[87..104] == c2;
    EndsWithField(c1 + c2, s, 23);
  }

  /** The "no movement" line is 127 characters with the message starting at column 30. */
  lemma NoMovementLayout()
    ensures var r := Render(NoMovement);
      |r| == 127 && r[30..30 + |NoMovementMessage|] == NoMovementMessage &&
      (forall i :: 0 <= i < 30 ==> r[i] == ' ')
  {
    var n1, n2 := PadRight("", 30), PadRight(NoMovementMessage, 42);
    var n3 := PadLeft("", 15) + PadLeft("", 17) + PadLeft("", 23);
    var r := n1 + n2 + n3;
    assert r[30..30 + |NoMovementMessage|] == n2[..|NoMovementMessage|];
    assert forall i :: 0 <= i < 30 ==> r[i] == n1[i];
  }

  /** The five lines above the table: company, member, address, city, period. */
  function HeadLines(row: Account): (lines: seq<Line>)
    requires Valid(row.dataEmissao)
    ensures |lines| == 5
  {
    var (start, end) := StatementPeriod(row.dataEmissao);
    [Company, Member(row.conta, row.nome), Address(row.endereco), City(row.municipio),
     PeriodLine(start, end, row.dataEmissaoText)]
  }

  // ---------------------------------------------------------------- balances

  /** "SALDO ANTERIOR": `capital_social - movimentacao`. */
  function OpeningBalance(row: Account): int
  {
    row.capitalSocial - row.movimentacao
  }

  /** The amount a movement adds to the running balance: 0 when its text does not parse. */
  function AmountValue(m: Movement): (v: int)
    ensures ParseCents(m.amount).None? ==> v == 0
    ensures ParseCents(m.amount).Some? ==> v == ParseCents(m.amount).value
  {
    match ParseCents(m.amount)
    case Some(v) => v
    case None => 0
  }

  /** The value of each movement, in order. */
  function Values(ms: seq<Movement>): (vs: seq<int>)
    ensures |vs| == |ms|
  {
    if ms == [] then [] else Values(ms[..|ms| - 1]) + [AmountValue(ms[|ms| - 1])]
  }

  lemma {:induction false} ValuesAt(ms: seq<Movement>, k: nat)
    requires k < |ms|
    ensures Values(ms)[k] == AmountValue(ms[k])
  {
    if k < |ms| - 1 {
      ValuesAt(ms[..|ms| - 1], k);
    }
  }

  function Sum(vs: seq<int>): int
  {
    if vs == [] then 0 else Sum(vs[..|vs| - 1]) + vs[|vs| - 1]
  }

  lemma SumStep(vs: seq<int>, i: nat)
    requires i < |vs|
    ensures Sum(vs[..i + 1]) == Sum(vs[..i]) + vs[i]
  {
    assert vs[..i + 1][..i] == vs[..i];
  }

  /** The sum of the movements' values: what the balance moves by over the month. */
  function SumAmounts(ms: seq<Movement>): int
  {
    Sum(Values(ms))
  }

  /** The balance printed on the k-th movement line (k counted from 1). */
  function RunningBalance(row: Account, k: nat): (b: int)
    requires k <= |row.movimentos|
    ensures k == 0 ==> b == row.capitalSocial - row.movimentacao
    ensures k == |row.movimentos| ==> b == row.capitalSocial - row.movimentacao + SumAmounts(row.movimentos)
  {
    assert Values(row.movimentos)[..|row.movimentos|] == Values(row.movimentos);
    OpeningBalance(row) + Sum(Values(row.movimentos)[..k])
  }

  /** One line per movement, in order, each with the running balance after it. */
  function MovementLines(row: Account): (lines: seq<Line>)
    ensures |lines| == |row.movimentos|
    ensures forall k :: 0 <= k < |lines| ==> lines[k].MovementRow? && lines[k].movement == row.movimentos[k]
    ensures lines != [] ==>
      lines[|lines| - 1].balance == row.capitalSocial - row.movimentacao + SumAmounts(row.movimentos)
  {
    seq(|row.movimentos|, k requires 0 <= k < |row.movimentos| =>
      MovementRow(row.movimentos[k], RunningBalance(row, k + 1)))
  }

  /** The movement lines, or the single "no movement" line for an empty list. */
  function BodyLines(row: Account): (lines: seq<Line>)
    ensures |lines| == if row.movimentos == [] then 1 else |row.movimentos|
  {
    if row.movimentos == [] then [NoMovement] else MovementLines(row)
  }

  /** Every line the statement of `row` draws, top to bottom. */
  function StatementLines(row: Account): (lines: seq<Line>)
    requires Valid(row.dataEmissao)
    ensures |lines| == 10 + |BodyLines(row)|
  {
    HeadLines(row) + [Header, Opening(OpeningBalance(row))] + BodyLines(row) +
      [Closing(row.capitalSocial), Ouvidoria, Footer]
  }

  // ---------------------------------------------------------------- statement properties

  /**
    The period line covers the whole month before the emission date, and
    the opening line shows `capital_social - movimentacao`; the closing
    line shows `capital_social` itself, never the accumulated balance.
  */
  lemma StatementBalances(row: Account)
    requires Valid(row.dataEmissao)
    ensures var lines := StatementLines(row);
      lines[4] == PeriodLine(StatementPeriod(row.dataEmissao).0, StatementPeriod(row.dataEmissao).1, row.dataEmissaoText) &&
      lines[6] == Opening(row.capitalSocial - row.movimentacao) &&
      lines[|lines| - 3] == Closing(row.capitalSocial)
  {
    var head := HeadLines(row);
    var top := head + [Header, Opening(OpeningBalance(row))];
    var bottom := [Closing(row.capitalSocial), Ouvidoria, Footer];
    var lines := StatementLines(row);
    assert lines == top + BodyLines(row) + bottom;
    assert lines[4] == head[4] && lines[6] == top[6];
    assert lines[|lines| - 3] == bottom[0];
  }

  /** An empty movement list draws exactly one "no movement" line and no movement line. */
  lemma StatementWithoutMovements(row: Account)
    requires Valid(row.dataEmissao) && row.movimentos == []
    ensures var lines := StatementLines(row);
      |lines| == 11 && lines[7] == NoMovement &&
      lines[8..] == [Closing(row.capitalSocial), Ouvidoria, Footer] &&
      forall i :: 0 <= i < |lines| ==> !lines[i].MovementRow?
  {
  }

  /** A non-empty list draws one line per movement and no "no movement" line. */
  lemma StatementWithMovements(row: Account)
    requires Valid(row.dataEmissao) && row.movimentos != []
    ensures var lines := StatementLines(row);
      |lines| == 10 + |row.movimentos| && NoMovement !in lines &&
      lines[7..7 + |row.movimentos|] == MovementLines(row)
  {
    var lines := StatementLines(row);
    var top := HeadLines(row) + [Header, Opening(OpeningBalance(row))];
    var bottom := [Closing(row.capitalSocial), Ouvidoria, Footer];
    var body := MovementLines(row);
    assert lines == top + body + bottom;
    assert lines[7..7 + |body|] == body;
    assert NoMovement !in top && NoMovement !in bottom;
    assert NoMovement !in body by {
      forall i | 0 <= i < |body| ensures body[i] != NoMovement {
        assert body[i].MovementRow?;
      }
    }
  }

  /**
    The running balance starts at the opening balance, and each one is the
    one before it plus the movement's value; an amount that does not parse
    adds 0.
  */
  lemma RunningBalanceStep(row: Account, k: nat)
    requires k < |row.movimentos|
    ensures RunningBalance(row, 0) == OpeningBalance(row)
    ensures RunningBalance(row, k + 1) == RunningBalance(row, k) + AmountValue(row.movimentos[k])
    ensures ParseCents(row.movimentos[k].amount).None? ==> RunningBalance(row, k + 1) == RunningBalance(row, k)
  {
    var vs := Values(row.movimentos);
    SumStep(vs, k);
    ValuesAt(row.movimentos, k);
    assert vs[..0] == [];
  }

  /** The k-th movement line holds the k-th movement and the running balance after it. */
  lemma StatementRunningBalances(row: Account, k: nat)
    requires Valid(row.dataEmissao) && k < |row.movimentos|
    ensures StatementLines(row)[7 + k] == MovementRow(row.movimentos[k], RunningBalance(row, k + 1))
  {
    var top := HeadLines(row) + [Header, Opening(OpeningBalance(row))];
    var bottom := [Closing(row.capitalSocial), Ouvidoria, Footer];
    assert BodyLines(row) == MovementLines(row);
    IndexInMiddle(top, MovementLines(row), bottom, k);
  }

  lemma SliceInMiddle<T>(top: seq<T>, mid: seq<T>, bottom: seq<T>, i: nat, j: nat)
    requires i <= j <= |mid|
    ensures (top + mid + bottom)[|top| + i..|top| + j] == mid[i..j]
  {
  }

  lemma IndexInMiddle<T>(top: seq<T>, mid: seq<T>, bottom: seq<T>, k: nat)
    requires k < |mid|
    ensures (top + mid + bottom)[|top| + k] == mid[k]
  {
  }

  /**
    On a non-empty list the closing "SALDO ATUAL" shows the same text as
    the last running balance exactly when the parsed amounts add up to
    `movimentacao`.
  */
  lemma ClosingMatchesLastBalance(row: Account)
    requires row.movimentos != []
    ensures Brazilian(row.capitalSocial) == Brazilian(RunningBalance(row, |row.movimentos|)) <==>
      SumAmounts(row.movimentos) == row.movimentacao
  {
    assert Values(row.movimentos)[..|row.movimentos|] == Values(row.movimentos);
    BrazilianInjective(row.capitalSocial, RunningBalance(row, |row.movimentos|));
  }

  // ---------------------------------------------------------------- rendering

  /**
    The movement loop of `gerar_pdf`: one line per movement, each showing the
    balance once the movement's value (0 when its amount does not parse) is
    added.
  */
  method DrawMovements(row: Account) returns (lines: seq<Line>)
    ensures lines == MovementLines(row)
  {
    var valorSaldoMov := row.capitalSocial - row.movimentacao;
    assert Values(row.movimentos)[..0] == [];
    lines := [];
    var movimentacoes := row.movimentos;
    var i := 0;
    while i < |movimentacoes|
      invariant 0 <= i <= |movimentacoes|
      invariant valorSaldoMov == RunningBalance(row, i)
      invariant lines == MovementLines(row)[..i]
    {
      var mov := movimentacoes[i];
      var parsed := ParseCents(mov.amount);
      var valorFloat := if parsed.Some? then parsed.value else 0;
      valorSaldoMov := valorSaldoMov + valorFloat;
      assert valorSaldoMov == RunningBalance(row, i + 1) by { RunningBalanceStep(row, i); }
      lines := lines + [MovementRow(mov, valorSaldoMov)];
      MovementLinesPrefix(row, i);
      i := i + 1;
    }
    assert MovementLines(row)[..i] == MovementLines(row);
  }

  lemma MovementLinesPrefix(row: Account, i: nat)
    requires i < |row.movimentos|
    ensures MovementLines(row)[..i + 1] ==
      MovementLines(row)[..i] + [MovementRow(row.movimentos[i], RunningBalance(row, i + 1))]
  {
    var ls := MovementLines(row);
    assert ls[i] == MovementRow(row.movimentos[i], RunningBalance(row, i + 1));
    PrefixStep(ls, i);
  }

  lemma PrefixStep<T>(s: seq<T>, i: nat)
    requires i < |s|
    ensures s[..i + 1] == s[..i] + [s[i]]
  {
  }

  /** The lines `gerar_pdf` draws for one row, top to bottom; `Render` gives each one's text. */
  method GerarPdf(row: Account) returns (drawn: seq<Line>)
    requires Valid(row.dataEmissao)
    ensures drawn == StatementLines(row)
  {
    var saldoAnterior := row.capitalSocial - row.movimentacao;
    var body: seq<Line>;
    if row.movimentos != [] {
      body := DrawMovements(row);
    } else {
      body := [NoMovement];
    }
    var lines := HeadLines(row) + [Header, Opening(saldoAnterior)] + body +
      [Closing(row.capitalSocial), Ouvidoria, Footer];
    StatementAssembly(row, body, lines);
    drawn := lines;
  }

  /** The lines `gerar_pdf` draws in turn, around either body, are the statement. */
  lemma StatementAssembly(row: Account, body: seq<Line>, lines: seq<Line>)
    requires Valid(row.dataEmissao)
    requires body == (if row.movimentos != [] then MovementLines(row) else [NoMovement])
    requires lines == HeadLines(row) + [Header, Opening(row.capitalSocial - row.movimentacao)] + body +
      [Closing(row.capitalSocial), Ouvidoria, Footer]
    ensures lines == StatementLines(row)
  {
    assert BodyLines(row) == body;
    assert Opening(OpeningBalance(row)) == Opening(row.capitalSocial - row.movimentacao);
  }

  /** The statement written for a row: at its path, with the text of every line. */
  function StatementFile(pathBases: string, row: Account): (f: PdfFile)
    requires Valid(row.dataEmissao)
    ensures f.path == PdfPath(pathBases, row) && f.lines == RenderAll(StatementLines(row))
  {
    PdfFile(PdfPath(pathBases, row), RenderAll(StatementLines(row)))
  }

  /** The statements written for `rows`, in order. */
  function StatementFiles(pathBases: string, rows: seq<Account>): (fs: seq<PdfFile>)
    requires forall i :: 0 <= i < |rows| ==> Valid(rows[i].dataEmissao)
    ensures |fs| == |rows|
  {
    seq(|rows|, i requires 0 <= i < |rows| && Valid(rows[i].dataEmissao) => StatementFile(pathBases, rows[i]))
  }

  lemma StatementFilesStep(pathBases: string, rows: seq<Account>, i: nat, lines: seq<string>)
    requires forall j :: 0 <= j < |rows| ==> Valid(rows[j].dataEmissao)
    requires i < |rows| && lines == RenderAll(StatementLines(rows[i]))
    ensures StatementFiles(pathBases, rows[..i + 1]) ==
      StatementFiles(pathBases, rows[..i]) + [PdfFile(PdfPath(pathBases, rows[i]), lines)]
  {
    var prefix := rows[..i];
    var longer := rows[..i + 1];
    assert longer == prefix + [rows[i]];
    var l, r := StatementFiles(pathBases, longer), StatementFiles(pathBases, prefix) + [StatementFile(pathBases, rows[i])];
    forall j | 0 <= j < |l| ensures l[j] == r[j] {
      assert longer[j] == rows[j];
      if j < i {
        assert prefix[j] == rows[j];
      }
    }
  }

  /** Counting one more row adds its key pair on top of the counts so far. */
  lemma TallyStep(m: Counts, rows: seq<Account>, i: nat)
    requires i < |rows|
    ensures Tally(m, CounterKeys(rows[..i + 1])) ==
      Bump(Tally(m, CounterKeys(rows[..i])), AgenciaKey(rows[i].agencia), rows[i].administradora)
  {
    CounterKeysStep(rows, i);
    var keys := CounterKeys(rows[..i + 1]);
    assert keys[..|keys| - 1] == CounterKeys(rows[..i]);
  }

  /** The dictionary steps of one row (create the branch, create the administrator, add one) are one `Bump`. */
  lemma CountOneRow(m: Counts, a: string, d: string)
    ensures var m1 := if a !in m then m[a := map[]] else m;
      var m2 := if d !in m1[a] then m1[a := m1[a][d := 0]] else m1;
      m2[a := m2[a][d := m2[a][d] + 1]] == Bump(m, a, d)
  {
    var inner := if a in m then m[a] else map[];
    var m1 := if a !in m then m[a := map[]] else m;
    assert m1[a] == inner;
    var m2 := if d !in m1[a] then m1[a := m1[a][d := 0]] else m1;
    assert m2[a][d] == Count(m, a, d);
    assert m2[a][d := m2[a][d] + 1] == inner[d := Count(m, a, d) + 1];
    assert m2.Keys == m.Keys + {a};
    assert forall a' :: a' in m2 && a' != a ==> m2[a'] == m[a'];
  }

  /**
    `CotaCapital`: the class whose class-level dictionary `_contas_por_agencia`
    survives across calls. `None` is the attribute not yet created.
  */
  class CotaCapital {
    var contasPorAgencia: Option<Counts>

    constructor ()
      ensures contasPorAgencia == None
    {
      contasPorAgencia := None;
    }

    /**
      The counting step of one row: create the dictionary, the branch and
      the administrator entries when missing, then add one.
    */
    method CountStatement(agencia: string, adminKey: string)
      modifies this
      ensures contasPorAgencia == Some(Bump(old(contasPorAgencia).GetOr(map[]), agencia, adminKey))
    {
      if contasPorAgencia.None? {
        contasPorAgencia := Some(map[]);
      }
      var contas := contasPorAgencia.value;
      ghost var before := contas;
      if agencia !in contas {
        contas := contas[agencia := map[]];
      }
      if adminKey !in contas[agencia] {
        contas := contas[agencia := contas[agencia][adminKey := 0]];
      }
      contas := contas[agencia := contas[agencia][adminKey := contas[agencia][adminKey] + 1]];
      CountOneRow(before, agencia, adminKey);
      contasPorAgencia := Some(contas);
    }

    /**
      Writes one statement per row, in order, and counts each under its
      branch key and administrator. The dictionary is created on the first
      row if it is missing, so counts accumulate over calls; an empty batch
      leaves it untouched.
    */
    method GerarExtratosMensal(pathBases: string, accounts: seq<Account>) returns (files: seq<PdfFile>)
      requires forall i :: 0 <= i < |accounts| ==> Valid(accounts[i].dataEmissao)
      modifies this
      ensures files == StatementFiles(pathBases, accounts)
      ensures contasPorAgencia ==
        if accounts == [] then old(contasPorAgencia)
        else Some(Tally(old(contasPorAgencia).GetOr(map[]), CounterKeys(accounts)))
    {
      ghost var start := contasPorAgencia.GetOr(map[]);
      files := [];
      var i := 0;
      while i < |accounts|
        invariant 0 <= i <= |accounts|
        invariant files == StatementFiles(pathBases, accounts[..i])
        invariant contasPorAgencia == if i == 0 then old(contasPorAgencia) else Some(Tally(start, CounterKeys(accounts[..i])))
      {
        var row := accounts[i];
        var agencia := AgenciaKey(row.agencia);
        var pdfFilename := [pathBases, "UA" + agencia, StatementsFolder, row.administradora, row.conta + ".pdf"];
        var drawn := GerarPdf(row);
        var lines := RenderAll(drawn);
        files := files + [PdfFile(pdfFilename, lines)];
        StatementFilesStep(pathBases, accounts, i, lines);

        CountStatement(agencia, row.administradora);
        assert contasPorAgencia == Some(Tally(start, CounterKeys(accounts[..i + 1]))) by {
          if i == 0 {
            assert CounterKeys(accounts[..i]) == [];
          }
          TallyStep(start, accounts, i);
        }
        i := i + 1;
      }
      assert accounts[..i] == accounts;
    }
  }
}
