/**
 * The sort engine of the transfer list (src/components/TransferPage.js): the sort
 * configuration and its toggle, the key-to-value extraction with its defaults, the
 * comparator, and the stable sort of a copy of the fetched transfers.
 */
module TransferSort {
  import opened Common
  import opened Text
  import opened Seqs
  import opened Api

  datatype Direction = Asc | Desc

  /** `sortConfig`: the key is null until a header is clicked. */
  datatype SortConfig = SortConfig(key: Option<string>, direction: Direction)

  const InitialSortConfig := SortConfig(None, Asc)

  /**
   * `handleSort`'s update: the clicked key becomes the key; the direction becomes
   * descending exactly when that key was already active and ascending.
   */
  function NextSortConfig(prev: SortConfig, key: string): (next: SortConfig)
    ensures next.key == Some(key)
    ensures next.direction == Desc <==> prev.key == Some(key) && prev.direction == Asc
  {
    SortConfig(Some(key), if prev.key == Some(key) && prev.direction == Asc then Desc else Asc)
  }

  /** Clicking a key other than the active one sorts ascending by it. */
  lemma ClickNewKeyAscends(prev: SortConfig, key: string)
    requires prev.key != Some(key)
    ensures NextSortConfig(prev, key) == SortConfig(Some(key), Asc)
  {
  }

  /** Clicking the active key flips the direction. */
  lemma ClickActiveKeyFlips(prev: SortConfig, key: string)
    requires prev.key == Some(key)
    ensures NextSortConfig(prev, key).key == prev.key
    ensures NextSortConfig(prev, key).direction != prev.direction
  {
  }

  /** Clicking the active key twice restores the configuration. */
  lemma ClickActiveKeyTwice(prev: SortConfig, key: string)
    requires prev.key == Some(key)
    ensures NextSortConfig(NextSortConfig(prev, key), key) == prev
  {
  }

  // ---------------------------------------------------------------- fee parsing

  predicate IsDigit(c: char) { '0' <= c <= '9' }

  /**
   * The white space `parseFloat` skips: ECMAScript's WhiteSpace (tab, vertical tab, form
   * feed, the byte order mark and the space separators of category Zs) and its
   * LineTerminator (line feed, carriage return, line and paragraph separator).
   */
  predicate IsSpace(c: char)
  {
    || c == '\t' || c == '\U{000B}' || c == '\U{000C}' || c == '\U{FEFF}'
    || c == ' ' || c == '\U{00A0}' || c == '\U{1680}' || '\U{2000}' <= c <= '\U{200A}'
    || c == '\U{202F}' || c == '\U{205F}' || c == '\U{3000}'
    || c == '\n' || c == '\r' || c == '\U{2028}' || c == '\U{2029}'
  }

  /** The value of a string of decimal digits. */
  function DigitsValue(ds: string): nat
    requires forall i :: 0 <= i < |ds| ==> IsDigit(ds[i])
  {
    if ds == [] then 0
    else
      assert IsDigit(ds[|ds| - 1]);
      DigitsValue(ds[..|ds| - 1]) * 10 + (ds[|ds| - 1] as int - '0' as int)
  }

  /** The number of leading digits of `s`. */
  function DigitRun(s: string): (n: nat)
    ensures n <= |s|
    ensures forall i :: 0 <= i < n ==> IsDigit(s[i])
    ensures n < |s| ==> !IsDigit(s[n])
  {
    if s == [] || !IsDigit(s[0]) then 0 else 1 + DigitRun(s[1..])
  }

  /** `s` without its leading white space. */
  function TrimStart(s: string): (t: string)
    ensures t == [] || !IsSpace(t[0])
    ensures |t| <= |s| && t == s[|s| - |t|..]
  {
    if s != [] && IsSpace(s[0]) then TrimStart(s[1..]) else s
  }

  /**
   * The integer part of the numeric literal at the start of `t` (an optional sign, then
   * digits), or None when there is none.
   */
  function ParseTrimmed(t: string): (r: Option<int>)
    ensures r.Some? ==> exists k :: 0 <= k < |t| && IsDigit(t[k])
  {
    var negative := t != [] && t[0] == '-';
    var u := if t != [] && (t[0] == '-' || t[0] == '+') then t[1..] else t;
    var n := DigitRun(u);
    if n == 0 then None
    else
      assert IsDigit(t[|t| - |u|]);
      var v: int := DigitsValue(u[..n]);
      Some(if negative then -v else v)
  }

  /**
   * The integer part of the numeric literal `parseFloat` reads at the start of `s`
   * (after white space and an optional sign), or None when there is none (NaN).
   */
  function ParseLeadingNumber(s: string): (r: Option<int>)
    ensures r.Some? ==> exists k :: 0 <= k < |s| && IsDigit(s[k])
  {
    var t := TrimStart(s);
    assert forall k :: 0 <= k < |t| ==> t[k] == s[|s| - |t| + k];
    ParseTrimmed(t)
  }

  lemma DigitNotSpace(c: char)
    requires IsDigit(c)
    ensures !IsSpace(c)
  {
  }

  /** A text of digits alone reads as its decimal value. */
  lemma ParseDigits(s: string)
    ensures s != [] && (forall k :: 0 <= k < |s| ==> IsDigit(s[k])) ==> ParseLeadingNumber(s) == Some(DigitsValue(s))
  {
    if s != [] && forall k :: 0 <= k < |s| ==> IsDigit(s[k]) {
      DigitNotSpace(s[0]);
      assert TrimStart(s) == s;
      assert "" + (s + "") == s;
      ParseSignedDigits("", s, "");
      assert ParseLeadingNumber(s) == ParseTrimmed(s);
    }
  }

  /** `parseFloat(obj.fee) || 0`: null and text that is not a number count as 0. */
  function FeeValue(f: Fee): (v: int)
    ensures f.NoFee? ==> v == 0
    ensures f.FeeNumber? ==> v == f.amount
    ensures f.FeeText? && (forall k :: 0 <= k < |f.text| ==> !IsDigit(f.text[k])) ==> v == 0
    ensures f.FeeText? && f.text != [] && (forall k :: 0 <= k < |f.text| ==> IsDigit(f.text[k])) ==> v == DigitsValue(f.text)
  {
    match f
    case NoFee => 0
    case FeeNumber(n) => n
    case FeeText(s) =>
      ParseDigits(s);
      match ParseLeadingNumber(s)
      case Some(n) => n
      case None => 0
  }

  /** A run of digits followed by anything that is not a digit is exactly as long as the digits. */
  lemma {:induction false} DigitRunPrefix(ds: string, rest: string)
    requires forall i :: 0 <= i < |ds| ==> IsDigit(ds[i])
    requires rest == [] || !IsDigit(rest[0])
    ensures DigitRun(ds + rest) == |ds|
  {
    if ds == [] {
      assert ds + rest == rest;
    } else {
      DigitRunPrefix(ds[1..], rest);
      assert (ds + rest)[1..] == ds[1..] + rest;
    }
  }

  /** A sign or none, then digits, then anything that does not start with a digit. */
  lemma {:induction false} ParseSignedDigits(sign: string, ds: string, rest: string)
    requires sign == "" || sign == "-" || sign == "+"
    requires ds != [] && forall i :: 0 <= i < |ds| ==> IsDigit(ds[i])
    requires rest == [] || !IsDigit(rest[0])
    ensures ParseTrimmed(sign + (ds + rest)) == Some(if sign == "-" then -(DigitsValue(ds) as int) else DigitsValue(ds))
  {
    var u := ds + rest;
    var t := sign + u;
    assert u[0] == ds[0] && IsDigit(ds[0]);
    if sign == "" {
      assert t == u;
    } else {
      assert t[0] == sign[0] && t[1..] == u;
    }
    DigitRunPrefix(ds, rest);
    assert u[..|ds|] == ds;
  }

  /**
   * A fee text whose first non-blank characters are digits reads as those digits, whatever
   * follows them ("12m" reads as 12).
   */
  lemma LeadingNumberFee(s: string, ds: string, rest: string)
    requires ds != [] && forall i :: 0 <= i < |ds| ==> IsDigit(ds[i])
    requires rest == [] || !IsDigit(rest[0])
    requires TrimStart(s) == ds + rest
    ensures FeeValue(FeeText(s)) == DigitsValue(ds)
  {
    var t := TrimStart(s);
    assert "" + (ds + rest) == t;
    ParseSignedDigits("", ds, rest);
    assert ParseLeadingNumber(s) == ParseTrimmed(t);
  }

  /** A sign before the digits: '-' negates the value, '+' keeps it ("-3" reads as -3). */
  lemma SignedNumberFee(s: string, sign: char, ds: string, rest: string)
    requires sign == '-' || sign == '+'
    requires ds != [] && forall i :: 0 <= i < |ds| ==> IsDigit(ds[i])
    requires rest == [] || !IsDigit(rest[0])
    requires TrimStart(s) == [sign] + (ds + rest)
    ensures FeeValue(FeeText(s)) == if sign == '-' then -(DigitsValue(ds) as int) else DigitsValue(ds)
  {
    var t := TrimStart(s);
    ParseSignedDigits([sign], ds, rest);
    assert ParseLeadingNumber(s) == ParseTrimmed(t);
  }

  /**
   * Leading white space is skipped: any `IsSpace` character (a form feed, a no-break space,
   * a line separator as well as the ASCII blanks) before a fee text leaves its value as it was.
   */
  lemma LeadingSpaceFee(c: char, s: string)
    requires IsSpace(c)
    ensures FeeValue(FeeText([c] + s)) == FeeValue(FeeText(s))
  {
    var cs := [c] + s;
    assert cs[0] == c && cs[1..] == s;
    assert TrimStart(cs) == TrimStart(s);
    assert ParseLeadingNumber(cs) == ParseTrimmed(TrimStart(s));
  }

  lemma FeeDefaults(s: string)
    requires forall k :: 0 <= k < |s| ==> !IsDigit(s[k])
    ensures FeeValue(NoFee) == 0 && FeeValue(FeeText(s)) == 0
  {
  }

  // ---------------------------------------------------------------- comparison

  /** A sort value after `getValue`: a number, or the text `String()` renders. */
  datatype SortValue = Num(n: int) | Str(s: string)

  /** `obj[key]` for a key not handled by `getValue`'s named cases. */
  function FieldValue(t: TransferRow, key: string): SortValue
  {
    if key == "id" then Num(t.id)
    else if key == "player_id" then Num(t.playerId)
    else if key == "from_team" then Str(t.fromTeam)
    else if key == "to_team" then Str(t.toTeam)
    else if key == "transfer_date" then Str(t.transferDate)
    else if key == "transfer_window" then Str(t.transferWindow)
    else if key == "player" then Str(if t.player.Some? then "[object Object]" else "undefined")
    else Str("undefined")
  }

  /**
   * `getValue(obj, key)`: numbers for the fee and the two ids, text otherwise; a row
   * without a nested player reads "" for its name.
   */
  function GetValue(t: TransferRow, key: string): (v: SortValue)
    ensures v.Num? <==> NumericKey(key)
    ensures key == "player_name" && t.player.None? ==> v == Str("")
  {
    if key == "fee" then Num(FeeValue(t.fee))
    else if key == "team" then Str(t.toTeam)
    else if key == "player_name" then Str(if t.player.Some? then OrEmpty(t.player.value.name) else "")
    else if key == "season" then Str(t.transferWindow)
    else FieldValue(t, key)
  }

  /** The keys whose values `getValue` reads as numbers. */
  predicate NumericKey(key: string)
  {
    key == "fee" || key == "id" || key == "player_id"
  }

  /** Whether a key yields numbers depends on the key alone, never on the row. */
  lemma ValueKindDependsOnKey(a: TransferRow, b: TransferRow, key: string)
    ensures GetValue(a, key).Num? == GetValue(b, key).Num?
  {
  }

  /** The comparator passed to `sort`: negative when `a` goes first. */
  function Compare(a: TransferRow, b: TransferRow, config: SortConfig): (r: int)
    ensures config.key.None? || config.key == Some("") ==> r == 0
    ensures config.key.Some? && config.key.value != "" ==>
      (r == 0 <==> GetValue(a, config.key.value) == GetValue(b, config.key.value))
  {
    match config.key
    case None => 0
    case Some(key) =>
      if key == "" then 0
      else
        var (va, vb) := (GetValue(a, key), GetValue(b, key));
        if NumericKey(key) then
          if config.direction == Asc then va.n - vb.n else vb.n - va.n
        else
          StrCompareZeroIff(va.s, vb.s);
          StrCompareZeroIff(vb.s, va.s);
          if config.direction == Asc then StrCompare(va.s, vb.s) else StrCompare(vb.s, va.s)
  }

  lemma CompareAntisymmetric(a: TransferRow, b: TransferRow, config: SortConfig)
    ensures Compare(a, b, config) == -Compare(b, a, config)
  {
    if config.key.Some? && config.key.value != "" {
      var key := config.key.value;
      match (GetValue(a, key), GetValue(b, key))
      case (Str(x), Str(y)) => StrCompareAntisymmetric(x, y);
      case _ =>
    }
  }

  lemma CompareTransitive(a: TransferRow, b: TransferRow, c: TransferRow, config: SortConfig)
    requires Compare(a, b, config) <= 0 && Compare(b, c, config) <= 0
    ensures Compare(a, c, config) <= 0
  {
    if config.key.Some? && config.key.value != "" {
      var key := config.key.value;
      ValueKindDependsOnKey(a, b, key);
      ValueKindDependsOnKey(b, c, key);
      match (GetValue(a, key), GetValue(b, key), GetValue(c, key))
      case (Str(x), Str(y), Str(z)) =>
        if config.direction == Asc {
          StrCompareTransitive(x, y, z);
        } else {
          StrCompareTransitive(z, y, x);
        }
      case _ =>
    }
  }

  /** Rows tying with a common row tie with each other. */
  lemma CompareTiesTransitive(a: TransferRow, b: TransferRow, v: TransferRow, config: SortConfig)
    requires Compare(a, v, config) == 0 && Compare(b, v, config) == 0
    ensures Compare(a, b, config) == 0
  {
    CompareAntisymmetric(b, v, config);
    CompareTransitive(a, v, b, config);
    CompareAntisymmetric(a, v, config);
    CompareTransitive(b, v, a, config);
    CompareAntisymmetric(a, b, config);
  }

  /** Every pair of rows is in order. */
  predicate SortedBy(s: seq<TransferRow>, config: SortConfig)
  {
    forall i, j :: 0 <= i < j < |s| ==> Compare(s[i], s[j], config) <= 0
  }

  function TieKeep(v: TransferRow, config: SortConfig): TransferRow -> bool
  {
    (x: TransferRow) => Compare(x, v, config) == 0
  }

  /** The rows of `s` that compare equal to `v`, in their order in `s`. */
  function Ties(s: seq<TransferRow>, v: TransferRow, config: SortConfig): seq<TransferRow>
  {
    Filter(s, TieKeep(v, config))
  }

  /** Stability: rows that compare equal keep their relative order. */
  ghost predicate StableFrom(r: seq<TransferRow>, s: seq<TransferRow>, config: SortConfig)
  {
    forall v :: Ties(r, v, config) == Ties(s, v, config)
  }

  /** No two rows of `s` are ordered by the comparator. */
  predicate AllTied(s: seq<TransferRow>, config: SortConfig)
  {
    forall i, j :: 0 <= i < |s| && 0 <= j < |s| ==> Compare(s[i], s[j], config) == 0
  }

  /** Exchanging neighbours that do not tie keeps every tie class in order. */
  lemma SwapNeighboursKeepsTies(s: seq<TransferRow>, k: nat, config: SortConfig)
    requires k + 1 < |s| && Compare(s[k], s[k + 1], config) != 0
    ensures StableFrom(s[k := s[k + 1]][k + 1 := s[k]], s, config)
  {
    forall v ensures Ties(s[k := s[k + 1]][k + 1 := s[k]], v, config) == Ties(s, v, config) {
      if Compare(s[k], v, config) == 0 && Compare(s[k + 1], v, config) == 0 {
        CompareTiesTransitive(s[k], s[k + 1], v, config);
      }
      FilterSwapNeighbours(s, k, TieKeep(v, config));
    }
  }

  /** A stable permutation of a list whose rows all tie is that list itself. */
  lemma StableAllTiedIsIdentity(r: seq<TransferRow>, s: seq<TransferRow>, config: SortConfig)
    requires multiset(r) == multiset(s)
    requires StableFrom(r, s, config)
    requires AllTied(s, config)
    ensures r == s
  {
    if s == [] {
      assert |r| == |multiset(r)| == 0;
    } else {
      var v := s[0];
      assert forall i :: 0 <= i < |s| ==> TieKeep(v, config)(s[i]);
      FilterKeepsAll(s, TieKeep(v, config));
      forall i | 0 <= i < |r| ensures TieKeep(v, config)(r[i]) {
        assert r[i] in multiset(s);
        var j :| 0 <= j < |s| && s[j] == r[i];
      }
      FilterKeepsAll(r, TieKeep(v, config));
      assert Ties(r, v, config) == Ties(s, v, config);
    }
  }

  /** The tie class of `v` in a non-empty list: its head when that ties with `v`, then the tail's. */
  lemma TiesCons(s: seq<TransferRow>, v: TransferRow, config: SortConfig)
    requires s != []
    ensures Ties(s, v, config) ==
      if Compare(s[0], v, config) == 0 then [s[0]] + Ties(s[1..], v, config) else Ties(s[1..], v, config)
  {
  }

  /** The heads of two sorted permutations of each other tie. */
  lemma HeadsTie(r: seq<TransferRow>, q: seq<TransferRow>, config: SortConfig)
    requires r != [] && multiset(r) == multiset(q)
    requires SortedBy(r, config) && SortedBy(q, config)
    ensures q != [] && Compare(r[0], q[0], config) == 0
  {
    assert r[0] in multiset(q);
    var j :| 0 <= j < |q| && q[j] == r[0];
    assert q[0] in multiset(r);
    var k :| 0 <= k < |r| && r[k] == q[0];
    if j > 0 {
      assert Compare(q[0], r[0], config) <= 0;
    }
    if k > 0 {
      assert Compare(r[0], q[0], config) <= 0;
    }
    CompareAntisymmetric(r[0], q[0], config);
  }

  /** Two lists with the same head keep the same tie classes after dropping it. */
  lemma StableTails(r: seq<TransferRow>, q: seq<TransferRow>, config: SortConfig)
    requires r != [] && q != [] && r[0] == q[0]
    requires StableFrom(r, q, config)
    ensures StableFrom(r[1..], q[1..], config)
  {
    forall w ensures Ties(r[1..], w, config) == Ties(q[1..], w, config) {
      TiesCons(r, w, config);
      TiesCons(q, w, config);
    }
  }

  /** Two permutations of each other with the same head are permutations after dropping it. */
  lemma TailMultiset(r: seq<TransferRow>, q: seq<TransferRow>)
    requires r != [] && q != [] && r[0] == q[0]
    requires multiset(r) == multiset(q)
    ensures multiset(r[1..]) == multiset(q[1..])
  {
    assert r == [r[0]] + r[1..] && q == [q[0]] + q[1..];
    calc {
      multiset(r[1..]);
      multiset(r) - multiset{r[0]};
      multiset(q) - multiset{q[0]};
      multiset(q[1..]);
    }
  }

  /** Stable permutations whose heads tie have the same head. */
  lemma SameHead(r: seq<TransferRow>, q: seq<TransferRow>, config: SortConfig)
    requires r != [] && q != [] && Compare(r[0], q[0], config) == 0
    requires StableFrom(r, q, config)
    ensures r[0] == q[0]
  {
    var v := q[0];
    CompareAntisymmetric(v, v, config);
    TiesCons(r, v, config);
    TiesCons(q, v, config);
    assert Ties(r, v, config) == Ties(q, v, config);
  }

  /**
   * Sorting has one answer: two permutations of each other that are both sorted and keep
   * ties in the same order are equal.
   */
  lemma {:induction false} SortedStableUnique(r: seq<TransferRow>, q: seq<TransferRow>, config: SortConfig)
    requires multiset(r) == multiset(q)
    requires SortedBy(r, config) && SortedBy(q, config)
    requires StableFrom(r, q, config)
    ensures r == q
    decreases |q|
  {
    if r == [] {
      assert |q| == |multiset(q)| == 0;
    } else {
      HeadsTie(r, q, config);
      SameHead(r, q, config);
      TailMultiset(r, q);
      StableTails(r, q, config);
      SortedStableUnique(r[1..], q[1..], config);
      assert r == [r[0]] + r[1..] && q == [q[0]] + q[1..];
    }
  }

  /** With no key chosen every pair of rows ties. */
  lemma NoKeyTiesAll(s: seq<TransferRow>, direction: Direction)
    ensures AllTied(s, SortConfig(None, direction))
  {
  }

  /** Combining two stable steps is stable. */
  lemma StableChain(r: seq<TransferRow>, m: seq<TransferRow>, s: seq<TransferRow>, config: SortConfig)
    requires StableFrom(r, m, config) && StableFrom(m, s, config)
    ensures StableFrom(r, s, config)
  {
    forall v ensures Ties(r, v, config) == Ties(s, v, config) {
      assert Ties(r, v, config) == Ties(m, v, config);
    }
  }

  /** The first `n` rows are in comparator order. */
  predicate SortedPrefix(s: seq<TransferRow>, n: nat, config: SortConfig)
  {
    n <= |s| && forall p, q :: 0 <= p < q < n ==> Compare(s[p], s[q], config) <= 0
  }

  /**
   * Mid-pass of the insertion sort: `s[..i + 1]` is ordered except at the moving row `s[j]`,
   * which is already ordered against everything after it.
   */
  ghost predicate Inserting(s: seq<TransferRow>, i: nat, j: nat, config: SortConfig)
  {
    && j <= i < |s|
    && (forall p, q :: 0 <= p < q <= i && p != j && q != j ==> Compare(s[p], s[q], config) <= 0)
    && (forall q :: j < q <= i ==> Compare(s[j], s[q], config) <= 0)
  }

  /** Swapping the moving row with a left neighbour that must follow it keeps the pass going. */
  lemma InsertingStep(s: seq<TransferRow>, i: nat, j: nat, config: SortConfig)
    requires Inserting(s, i, j, config) && 0 < j && Compare(s[j - 1], s[j], config) > 0
    ensures Inserting(s[j - 1 := s[j]][j := s[j - 1]], i, j - 1, config)
  {
    CompareAntisymmetric(s[j - 1], s[j], config);
  }

  /** The swap of one step of a pass keeps the pass's invariant, the rows and their ties. */
  lemma InsertingSwap(s: seq<TransferRow>, start: seq<TransferRow>, i: nat, j: nat, config: SortConfig)
    requires Inserting(s, i, j, config) && 0 < j && Compare(s[j - 1], s[j], config) > 0
    requires multiset(s) == multiset(start) && StableFrom(s, start, config)
    ensures var t := s[j - 1 := s[j]][j := s[j - 1]];
      Inserting(t, i, j - 1, config) && multiset(t) == multiset(start) && StableFrom(t, start, config)
  {
    var t := s[j - 1 := s[j]][j := s[j - 1]];
    SwapNeighboursKeepsTies(s, j - 1, config);
    InsertingStep(s, i, j, config);
    StableChain(t, s, start, config);
  }

  /** A pass that stops in front of a row that may precede the moving one has ordered `s[..i + 1]`. */
  lemma InsertingDone(s: seq<TransferRow>, i: nat, j: nat, config: SortConfig)
    requires Inserting(s, i, j, config)
    requires j == 0 || Compare(s[j - 1], s[j], config) <= 0
    ensures SortedPrefix(s, i + 1, config)
  {
    forall p | 0 <= p < j ensures Compare(s[p], s[j], config) <= 0 {
      if p < j - 1 {
        CompareTransitive(s[p], s[j - 1], s[j], config);
      }
    }
  }

  /**
   * One pass of the insertion sort: moves `a[i]` left past every row that must follow it,
   * so that `a[..i + 1]` is ordered.
   */
  method InsertAt(a: array<TransferRow>, i: nat, config: SortConfig)
    requires i < a.Length && SortedPrefix(a[..], i, config)
    modifies a
    ensures SortedPrefix(a[..], i + 1, config)
    ensures multiset(a[..]) == multiset(old(a[..]))
    ensures StableFrom(a[..], old(a[..]), config)
  {
    ghost var start := a[..];
    var j := i;
    assert Inserting(a[..], i, j, config);
    while 0 < j && Compare(a[j - 1], a[j], config) > 0
      invariant 0 <= j <= i
      invariant Inserting(a[..], i, j, config)
      invariant multiset(a[..]) == multiset(start)
      invariant StableFrom(a[..], start, config)
    {
      ghost var before := a[..];
      InsertingSwap(before, start, i, j, config);
      a[j - 1], a[j] := a[j], a[j - 1];
      assert a[..] == before[j - 1 := before[j]][j := before[j - 1]];
      j := j - 1;
    }
    InsertingDone(a[..], i, j, config);
  }

  /**
   * `[...transfers].sort(comparator)`: an insertion sort of a fresh copy.  The result is a
   * permutation of the input, ordered by the comparator, stable, and equal to the input
   * when no two rows are ordered or the input is already sorted (so sorting twice is
   * sorting once); the input list itself is a value and is not changed.
   */
  method SortCopy(transfers: seq<TransferRow>, config: SortConfig) returns (sorted: seq<TransferRow>)
    ensures multiset(sorted) == multiset(transfers)
    ensures SortedBy(sorted, config)
    ensures StableFrom(sorted, transfers, config)
    ensures AllTied(transfers, config) ==> sorted == transfers
    ensures SortedBy(transfers, config) ==> sorted == transfers
  {
    var a := new TransferRow[|transfers|](k requires 0 <= k < |transfers| => transfers[k]);
    assert a[..] == transfers;
    var i := 0;
    while i < a.Length
      invariant 0 <= i <= a.Length
      invariant SortedPrefix(a[..], i, config)
      invariant multiset(a[..]) == multiset(transfers)
      invariant StableFrom(a[..], transfers, config)
    {
      ghost var before := a[..];
      InsertAt(a, i, config);
      StableChain(a[..], before, transfers, config);
      i := i + 1;
    }
    sorted := a[..];
    assert SortedPrefix(sorted, |sorted|, config);
    if AllTied(transfers, config) {
      StableAllTiedIsIdentity(sorted, transfers, config);
    }
    if SortedBy(transfers, config) {
      SortedStableUnique(sorted, transfers, config);
    }
  }

  // ---------------------------------------------------------------- column headers

  /** `str.replace(from, to)` with a one-character pattern: only the first occurrence. */
  function ReplaceFirst(s: string, from: char, to: char): (r: string)
    ensures |r| == |s|
    ensures forall i :: 0 <= i < |s| ==> r[i] == s[i] || (s[i] == from && r[i] == to)
  {
    if s == [] then []
    else if s[0] == from then [to] + s[1..]
    else [s[0]] + ReplaceFirst(s[1..], from, to)
  }

  /** The first occurrence of `from`, at `k`, is the only character replaced. */
  lemma {:induction false} ReplaceFirstAt(s: string, from: char, to: char, k: nat)
    requires k < |s| && s[k] == from
    requires forall i :: 0 <= i < k ==> s[i] != from
    ensures ReplaceFirst(s, from, to) == s[..k] + [to] + s[k + 1..]
  {
    if k == 0 {
      assert s[..0] + [to] + s[1..] == [to] + s[1..];
    } else {
      var t := s[1..];
      assert s[0] != from;
      ReplaceFirstAt(t, from, to, k - 1);
      assert ReplaceFirst(s, from, to) == [s[0]] + ReplaceFirst(t, from, to);
      assert t[k..] == s[k + 1..] && s[..k] == [s[0]] + t[..k - 1];
      assert s[..k] + [to] + s[k + 1..] == [s[0]] + (t[..k - 1] + [to] + t[k..]);
    }
  }

  /** Without an occurrence of `from` nothing is replaced. */
  lemma {:induction false} ReplaceFirstAbsent(s: string, from: char, to: char)
    requires forall i :: 0 <= i < |s| ==> s[i] != from
    ensures ReplaceFirst(s, from, to) == s
  {
    if s != [] {
      ReplaceFirstAbsent(s[1..], from, to);
    }
  }

  /** The sort key a column header requests: `header.toLowerCase().replace(' ', '_')`. */
  function HeaderKey(header: string): (key: string)
    ensures |key| == |header|
    ensures forall i :: 0 <= i < |header| ==> key[i] == LowerChar(header[i]) || (LowerChar(header[i]) == ' ' && key[i] == '_')
  {
    ReplaceFirst(Lower(header), ' ', '_')
  }

  const Headers := ["Player Name", "Team", "Transfer Fee", "Season"]

  lemma LowerPlayerName()
    ensures Lower("Player Name") == "player name"
  {
    LowerIs("Player Name", "player name");
  }

  lemma PlayerNameSlices()
    ensures "player name"[..6] + ['_'] + "player name"[7..] == "player_name"
  {
    var lowered := "player name";
    assert lowered[..6] == "player";
    assert lowered[7..] == "name";
  }

  lemma ReplacePlayerName()
    ensures ReplaceFirst("player name", ' ', '_') == "player_name"
  {
    ReplaceFirstAt("player name", ' ', '_', 6);
    PlayerNameSlices();
  }

  lemma PlayerNameHeaderKey()
    ensures HeaderKey("Player Name") == "player_name"
  {
    LowerPlayerName();
    ReplacePlayerName();
  }

  lemma TeamHeaderKey()
    ensures HeaderKey("Team") == "team"
  {
    LowerIs("Team", "team");
    ReplaceFirstAbsent("team", ' ', '_');
  }

  lemma LowerTransferFee()
    ensures Lower("Transfer Fee") == "transfer fee"
  {
    LowerIs("Transfer Fee", "transfer fee");
  }

  lemma TransferFeeSlices()
    ensures "transfer fee"[..8] + ['_'] + "transfer fee"[9..] == "transfer_fee"
  {
    var lowered := "transfer fee";
    assert lowered[..8] == "transfer";
    assert lowered[9..] == "fee";
  }

  lemma ReplaceTransferFee()
    ensures ReplaceFirst("transfer fee", ' ', '_') == "transfer_fee"
  {
    ReplaceFirstAt("transfer fee", ' ', '_', 8);
    TransferFeeSlices();
  }

  lemma TransferFeeHeaderKey()
    ensures HeaderKey("Transfer Fee") == "transfer_fee"
  {
    LowerTransferFee();
    ReplaceTransferFee();
  }

  lemma SeasonHeaderKey()
    ensures HeaderKey("Season") == "season"
  {
    LowerIs("Season", "season");
    ReplaceFirstAbsent("season", ' ', '_');
  }

  /**
   * The keys `getValue` or the row's own fields answer; any other key reads `undefined`.
   * Names a row inherits from `Object.prototype` (`constructor`, `toString`) are not modelled.
   */
  predicate KnownKey(key: string)
  {
    key in ["fee", "team", "player_name", "season", "id", "player_id", "from_team", "to_team",
            "transfer_date", "transfer_window", "player"]
  }

  /** Under a key nobody answers every row reads `"undefined"`, so all rows tie. */
  lemma UnknownKeyTiesAll(s: seq<TransferRow>, key: string, direction: Direction)
    requires !KnownKey(key)
    ensures AllTied(s, SortConfig(Some(key), direction))
  {
    StrCompareZeroIff("undefined", "undefined");
    forall i, j | 0 <= i < |s| && 0 <= j < |s|
      ensures Compare(s[i], s[j], SortConfig(Some(key), direction)) == 0
    {
      UnknownKeyValue(s[i], key);
      UnknownKeyValue(s[j], key);
    }
  }

  lemma UnknownKeyValue(t: TransferRow, key: string)
    requires !KnownKey(key)
    ensures GetValue(t, key) == Str("undefined")
  {
  }

  /** GET /transfers never sends a nested `player`. */
  predicate FromTransferList(s: seq<TransferRow>)
  {
    forall i :: 0 <= i < |s| ==> s[i].player.None?
  }

  /** Without a nested player every row's `player_name` is `""`, so all rows tie. */
  lemma PlayerNameTiesAll(s: seq<TransferRow>, direction: Direction)
    requires FromTransferList(s)
    ensures AllTied(s, SortConfig(Some("player_name"), direction))
  {
    forall i, j | 0 <= i < |s| && 0 <= j < |s|
      ensures Compare(s[i], s[j], SortConfig(Some("player_name"), direction)) == 0
    {
      StrCompareZeroIff("", "");
    }
  }

  /**
   * The "Transfer Fee" header requests `transfer_fee`, which `getValue` does not handle and
   * the rows lack, and "Player Name" reads the missing nested player: under either key all
   * rows of the transfer list tie, so the sort keeps their order.
   */
  lemma HeadersWithoutEffect(s: seq<TransferRow>, direction: Direction)
    requires FromTransferList(s)
    ensures AllTied(s, SortConfig(Some(HeaderKey("Transfer Fee")), direction))
    ensures AllTied(s, SortConfig(Some(HeaderKey("Player Name")), direction))
  {
    TransferFeeHeaderTies(s, direction);
    PlayerNameHeaderTies(s, direction);
  }

  lemma TransferFeeHeaderTies(s: seq<TransferRow>, direction: Direction)
    ensures AllTied(s, SortConfig(Some(HeaderKey("Transfer Fee")), direction))
  {
    TransferFeeHeaderKey();
    TransferFeeUnknown();
    UnknownKeyTiesAll(s, "transfer_fee", direction);
  }

  /** No known key has twelve characters. */
  lemma TransferFeeUnknown()
    ensures !KnownKey("transfer_fee")
  {
    assert |"transfer_fee"| == 12;
  }

  lemma PlayerNameHeaderTies(s: seq<TransferRow>, direction: Direction)
    requires FromTransferList(s)
    ensures AllTied(s, SortConfig(Some(HeaderKey("Player Name")), direction))
  {
    PlayerNameHeaderKey();
    PlayerNameTiesAll(s, direction);
  }

  /** Sorted by `fee`, the fees (null and non-numbers as 0) rise, or fall when descending. */
  lemma SortedByFee(s: seq<TransferRow>, direction: Direction)
    requires SortedBy(s, SortConfig(Some("fee"), direction))
    ensures forall i, j :: 0 <= i < j < |s| ==>
      if direction == Asc then FeeValue(s[i].fee) <= FeeValue(s[j].fee)
      else FeeValue(s[j].fee) <= FeeValue(s[i].fee)
  {
    forall i, j | 0 <= i < j < |s|
      ensures if direction == Asc then FeeValue(s[i].fee) <= FeeValue(s[j].fee)
              else FeeValue(s[j].fee) <= FeeValue(s[i].fee)
    {
      assert Compare(s[i], s[j], SortConfig(Some("fee"), direction)) <= 0;
    }
  }

  /**
   * Sorted by `team` or `season` the destination team or the transfer window is in string
   * order, operands swapped when descending.
   */
  lemma SortedByTeamAndSeason(s: seq<TransferRow>, direction: Direction)
    ensures SortedBy(s, SortConfig(Some("team"), direction)) ==>
      forall i, j :: 0 <= i < j < |s| ==>
        if direction == Asc then StrCompare(s[i].toTeam, s[j].toTeam) <= 0
        else StrCompare(s[j].toTeam, s[i].toTeam) <= 0
    ensures SortedBy(s, SortConfig(Some("season"), direction)) ==>
      forall i, j :: 0 <= i < j < |s| ==>
        if direction == Asc then StrCompare(s[i].transferWindow, s[j].transferWindow) <= 0
        else StrCompare(s[j].transferWindow, s[i].transferWindow) <= 0
  {
    if SortedBy(s, SortConfig(Some("team"), direction)) {
      forall i, j | 0 <= i < j < |s|
        ensures if direction == Asc then StrCompare(s[i].toTeam, s[j].toTeam) <= 0
                else StrCompare(s[j].toTeam, s[i].toTeam) <= 0
      {
        assert Compare(s[i], s[j], SortConfig(Some("team"), direction)) <= 0;
      }
    }
    if SortedBy(s, SortConfig(Some("season"), direction)) {
      forall i, j | 0 <= i < j < |s|
        ensures if direction == Asc then StrCompare(s[i].transferWindow, s[j].transferWindow) <= 0
                else StrCompare(s[j].transferWindow, s[i].transferWindow) <= 0
      {
        assert Compare(s[i], s[j], SortConfig(Some("season"), direction)) <= 0;
      }
    }
  }
}
