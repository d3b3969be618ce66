/** The token lists behind a balance request: first occurrences, the default token, and the stable
    order with native tokens on top. */
module TokenLists {
  import opened Wrappers
  import opened Strings

  datatype TokenRow = TokenRow(id: nat, symbol: string, address: string, decimals: nat)

  /** A selection of rows: the first with their address, or those with or without a symbol. */
  datatype Pick = First(skipEmpty: bool) | WithSymbol(symbol: string) | WithoutSymbol(symbol: string)

  predicate Picks(rows: seq<TokenRow>, pick: Pick, i: nat)
    requires i < |rows|
  {
    match pick
    case First(skipEmpty) =>
      (skipEmpty ==> rows[i].address != "") && forall j | 0 <= j < i :: rows[j].address != rows[i].address
    case WithSymbol(symbol) => rows[i].symbol == symbol
    case WithoutSymbol(symbol) => rows[i].symbol != symbol
  }

  /** The selected positions among the first `n`, in order. */
  function Positions(rows: seq<TokenRow>, pick: Pick, n: nat): (r: seq<nat>)
    requires n <= |rows|
    ensures forall k :: 0 <= k < |r| ==> r[k] < n
  {
    if n == 0 then [] else Positions(rows, pick, n - 1) + if Picks(rows, pick, n - 1) then [n - 1] else []
  }

  predicate Increasing(positions: seq<nat>) {
    forall j, k :: 0 <= j < k < |positions| ==> positions[j] < positions[k]
  }

  lemma {:induction false} PositionsExact(rows: seq<TokenRow>, pick: Pick, n: nat)
    requires n <= |rows|
    ensures Increasing(Positions(rows, pick, n))
    ensures forall i: nat :: i in Positions(rows, pick, n) <==> i < n && Picks(rows, pick, i)
  {
    if n > 0 {
      PositionsExact(rows, pick, n - 1);
    }
  }

  function At(rows: seq<TokenRow>, positions: seq<nat>): (r: seq<TokenRow>)
    requires forall k :: 0 <= k < |positions| ==> positions[k] < |rows|
    ensures |r| == |positions| && forall k :: 0 <= k < |r| ==> r[k] == rows[positions[k]]
  {
    seq(|positions|, k requires 0 <= k < |positions| => rows[positions[k]])
  }

  function Select(rows: seq<TokenRow>, pick: Pick): seq<TokenRow> {
    At(rows, Positions(rows, pick, |rows|))
  }

  predicate HasAddress(rows: seq<TokenRow>, address: string) {
    exists t | t in rows :: t.address == address
  }

  lemma {:induction false} FirstWith(rows: seq<TokenRow>, address: string, n: nat) returns (i: nat)
    requires n <= |rows| && exists j :: 0 <= j < n && rows[j].address == address
    ensures i < n && rows[i].address == address && forall j :: 0 <= j < i ==> rows[j].address != address
  {
    if exists j :: 0 <= j < n - 1 && rows[j].address == address {
      i := FirstWith(rows, address, n - 1);
    } else {
      i := n - 1;
    }
  }

  /** Exactly the addresses of the rows, the empty one aside if that is skipped, and none twice. */
  lemma {:induction false} FirstsCover(rows: seq<TokenRow>, skipEmpty: bool)
    ensures var items := Select(rows, First(skipEmpty));
            && (forall i, j :: 0 <= i < j < |items| ==> items[i].address != items[j].address)
            && forall a :: HasAddress(items, a) <==> HasAddress(rows, a) && (skipEmpty ==> a != "")
  {
    var positions := Positions(rows, First(skipEmpty), |rows|);
    var items := At(rows, positions);
    PositionsExact(rows, First(skipEmpty), |rows|);
    assert forall k :: 0 <= k < |positions| ==> positions[k] in positions;
    forall a ensures HasAddress(items, a) <==> HasAddress(rows, a) && (skipEmpty ==> a != "") {
      if HasAddress(rows, a) && (skipEmpty ==> a != "") {
        var j :| 0 <= j < |rows| && rows[j].address == a;
        var i := FirstWith(rows, a, |rows|);
        assert Picks(rows, First(skipEmpty), i) && i in positions;
        var k :| 0 <= k < |positions| && positions[k] == i;
        assert items[k] in items;
      }
      if HasAddress(items, a) {
        var k :| 0 <= k < |items| && items[k].address == a;
        assert rows[positions[k]] in rows;
      }
    }
  }

  // ------------------------------------------------------------------ the loops

  /** `getTokensByUserIdAndNetworkId`: rows without an address are dropped, then later duplicates. */
  method UniqueTokens(rows: seq<TokenRow>) returns (acc: seq<TokenRow>)
    ensures acc == Select(rows, First(true))
    ensures forall i, j :: 0 <= i < j < |acc| ==> acc[i].address != acc[j].address
    ensures forall a :: HasAddress(acc, a) <==> HasAddress(rows, a) && a != ""
  {
    acc := [];
    var seenAddresses := {};
    for i := 0 to |rows|
      invariant acc == At(rows, Positions(rows, First(true), i))
      invariant forall a :: a in seenAddresses <==> a != "" && exists j :: 0 <= j < i && rows[j].address == a
    {
      var curr := rows[i];
      if curr.address != "" && curr.address !in seenAddresses {
        acc := acc + [curr];
        seenAddresses := seenAddresses + {curr.address};
      }
    }
    FirstsCover(rows, true);
  }

  /** The default token is added when it exists and no row has the native symbol, in any case. */
  function WithDefault(rows: seq<TokenRow>, default: Option<TokenRow>, native: string): seq<TokenRow> {
    if default.Some? && |native| > 0 && !HasSymbol(rows, native) then rows + [default.value] else rows
  }

  predicate HasSymbol(rows: seq<TokenRow>, symbol: string) {
    exists t | t in rows :: Lower(t.symbol) == Lower(symbol)
  }

  /** The first loop of `getBalance`: a set of the addresses seen so far. */
  method DistinctItems(rows: seq<TokenRow>) returns (items: seq<TokenRow>)
    ensures items == Select(rows, First(false))
    ensures forall i, j :: 0 <= i < j < |items| ==> items[i].address != items[j].address
    ensures forall a :: HasAddress(items, a) <==> HasAddress(rows, a)
  {
    items := [];
    var seenAddresses := {};
    for i := 0 to |rows|
      invariant items == At(rows, Positions(rows, First(false), i))
      invariant forall a :: a in seenAddresses <==> exists j :: 0 <= j < i && rows[j].address == a
    {
      var tokenAddress := rows[i].address;
      if tokenAddress in seenAddresses {
        continue;
      }
      seenAddresses := seenAddresses + {tokenAddress};
      items := items + [rows[i]];
    }
    FirstsCover(rows, false);
  }

  /** Its last two passes: the native symbol on top. */
  method NativeOnTop(items: seq<TokenRow>, native: string) returns (fixed: seq<TokenRow>)
    ensures fixed == NativeFirst(items, native)
  {
    fixed := [];
    for i := 0 to |items|
      invariant fixed == At(items, Positions(items, WithSymbol(native), i))
    {
      if items[i].symbol == native {
        fixed := fixed + [items[i]];
      }
    }
    ghost var top := fixed;
    for i := 0 to |items|
      invariant fixed == top + At(items, Positions(items, WithoutSymbol(native), i))
    {
      if items[i].symbol != native {
        fixed := fixed + [items[i]];
      }
    }
  }

  function NativeFirst(items: seq<TokenRow>, native: string): seq<TokenRow> {
    Select(items, WithSymbol(native)) + Select(items, WithoutSymbol(native))
  }

  function BalanceList(rows: seq<TokenRow>, native: string): seq<TokenRow> {
    NativeFirst(Select(rows, First(false)), native)
  }

  /** The list that `getBalance` returns for the stored rows. */
  method BalanceItems(rows: seq<TokenRow>, default: Option<TokenRow>, native: string) returns (fixed: seq<TokenRow>)
    ensures fixed == BalanceList(WithDefault(rows, default, native), native)
  {
    var userTokenList := rows;
    if default.Some? && |native| > 0 && !HasSymbol(userTokenList, native) {
      userTokenList := userTokenList + [default.value];
    }
    var items := DistinctItems(userTokenList);
    fixed := NativeOnTop(items, native);
  }

  // ------------------------------------------------------------------ what the list is

  /** The order of the list: native symbols first, and the order of the rows within each group. */
  predicate Precedes(rows: seq<TokenRow>, native: string, i: nat, j: nat)
    requires i < |rows| && j < |rows|
  {
    if (rows[i].symbol == native) == (rows[j].symbol == native) then i < j else rows[i].symbol == native
  }

  /** Where each entry stood before the native symbols were brought to the top. */
  function ItemOrder(items: seq<TokenRow>, native: string): (r: seq<nat>)
    ensures forall k :: 0 <= k < |r| ==> r[k] < |items|
  {
    Positions(items, WithSymbol(native), |items|) + Positions(items, WithoutSymbol(native), |items|)
  }

  lemma {:induction false} OrderComplete(items: seq<TokenRow>, native: string)
    ensures NativeFirst(items, native) == At(items, ItemOrder(items, native))
    ensures forall i: nat :: i < |items| <==> i in ItemOrder(items, native)
  {
    PositionsExact(items, WithSymbol(native), |items|);
    PositionsExact(items, WithoutSymbol(native), |items|);
  }

  lemma {:induction false} OrderSorted(items: seq<TokenRow>, native: string, j: nat, k: nat)
    requires j < k < |ItemOrder(items, native)|
    ensures Precedes(items, native, ItemOrder(items, native)[j], ItemOrder(items, native)[k])
  {
    var top, rest := Positions(items, WithSymbol(native), |items|), Positions(items, WithoutSymbol(native), |items|);
    PositionsExact(items, WithSymbol(native), |items|);
    PositionsExact(items, WithoutSymbol(native), |items|);
    if k < |top| {
      assert top[j] in top && top[k] in top;
    } else if j < |top| {
      assert top[j] in top && rest[k - |top|] in rest;
    } else {
      assert rest[j - |top|] in rest && rest[k - |top|] in rest;
    }
  }

  /** Where each entry of the list stands among the rows. */
  function Origins(rows: seq<TokenRow>, native: string): (r: seq<nat>)
    ensures forall k :: 0 <= k < |r| ==> r[k] < |rows|
  {
    var firsts := Positions(rows, First(false), |rows|);
    var order := ItemOrder(At(rows, firsts), native);
    seq(|order|, k requires 0 <= k < |order| => firsts[order[k]])
  }

  /** The list is the rows at `Origins`: exactly the positions that are the first with their address, each
      once, ordered as `Precedes` says. */
  lemma {:induction false} BalanceListExact(rows: seq<TokenRow>, native: string)
    ensures BalanceList(rows, native) == At(rows, Origins(rows, native))
    ensures forall i: nat :: i in Origins(rows, native) <==> i < |rows| && Picks(rows, First(false), i)
    ensures forall j, k :: 0 <= j < k < |Origins(rows, native)| ==>
              Precedes(rows, native, Origins(rows, native)[j], Origins(rows, native)[k])
  {
    var firsts := Positions(rows, First(false), |rows|);
    var items := At(rows, firsts);
    var order := ItemOrder(items, native);
    PositionsExact(rows, First(false), |rows|);
    OrderComplete(items, native);
    var origins := Origins(rows, native);
    forall i: nat | i < |rows| && Picks(rows, First(false), i) ensures i in origins {
      var k :| 0 <= k < |firsts| && firsts[k] == i;
      assert k in order;
      var m :| 0 <= m < |order| && order[m] == k;
      assert origins[m] == i;
    }
    forall j, k | 0 <= j < k < |origins| ensures Precedes(rows, native, origins[j], origins[k]) {
      OrderSorted(items, native, j, k);
      assert order[j] < order[k] ==> firsts[order[j]] < firsts[order[k]];
    }
  }

  lemma {:induction false} FirstIsListed(rows: seq<TokenRow>, native: string, i: nat)
    requires i < |rows| && Picks(rows, First(false), i)
    ensures rows[i] in BalanceList(rows, native)
  {
    BalanceListExact(rows, native);
    var k :| 0 <= k < |Origins(rows, native)| && Origins(rows, native)[k] == i;
    assert BalanceList(rows, native)[k] == rows[i];
  }

  lemma {:induction false} ListedIsFirst(rows: seq<TokenRow>, native: string, t: TokenRow) returns (i: nat)
    requires t in BalanceList(rows, native)
    ensures i < |rows| && rows[i] == t && Picks(rows, First(false), i)
  {
    BalanceListExact(rows, native);
    var k: nat :| k < |BalanceList(rows, native)| && BalanceList(rows, native)[k] == t;
    i := Origins(rows, native)[k];
  }

  lemma {:induction false} StoredIsListed(rows: seq<TokenRow>, native: string)
    requires HasSymbol(rows, native)
    requires forall i, j :: 0 <= i < j < |rows| ==> rows[i].address != rows[j].address
    ensures HasSymbol(BalanceList(rows, native), native)
  {
    var t :| t in rows && Lower(t.symbol) == Lower(native);
    var i: nat :| i < |rows| && rows[i] == t;
    FirstIsListed(rows, native, i);
  }

  lemma {:induction false} DefaultListedIff(rows: seq<TokenRow>, default: TokenRow, native: string)
    requires Lower(default.symbol) == Lower(native) && !HasSymbol(rows, native)
    ensures HasSymbol(BalanceList(rows + [default], native), native) <==>
            forall t :: t in rows ==> t.address != default.address
  {
    var all := rows + [default];
    DefaultKeptIff(rows, default);
    if Picks(all, First(false), |rows|) {
      FirstIsListed(all, native, |rows|);
    }
    if HasSymbol(BalanceList(all, native), native) {
      var t :| t in BalanceList(all, native) && Lower(t.symbol) == Lower(native);
      var i := ListedIsFirst(all, native, t);
    }
  }

  lemma {:induction false} NoneListed(rows: seq<TokenRow>, native: string)
    requires !HasSymbol(rows, native)
    ensures !HasSymbol(BalanceList(rows, native), native)
  {
    if HasSymbol(BalanceList(rows, native), native) {
      var t :| t in BalanceList(rows, native) && Lower(t.symbol) == Lower(native);
      var i := ListedIsFirst(rows, native, t);
    }
  }

  /** The native symbol is listed, in whatever case, exactly when a stored row has it or the default
      token's address is not taken by another row. */
  lemma {:induction false} NativeListedIff(rows: seq<TokenRow>, default: Option<TokenRow>, native: string)
    requires |native| > 0 && (default.Some? ==> Lower(default.value.symbol) == Lower(native))
    requires forall i, j :: 0 <= i < j < |rows| ==> rows[i].address != rows[j].address
    ensures HasSymbol(BalanceList(WithDefault(rows, default, native), native), native) <==>
            HasSymbol(rows, native) || (default.Some? && forall t :: t in rows ==> t.address != default.value.address)
  {
    if HasSymbol(rows, native) {
      StoredIsListed(rows, native);
    } else if default.Some? {
      DefaultListedIff(rows, default.value, native);
    } else {
      NoneListed(rows, native);
    }
  }

  /** A stored token at the default token's address hides the native symbol. */
  lemma {:induction false} NativeHidden(stored: TokenRow, default: TokenRow, native: string)
    requires stored == TokenRow(0, "x", "0x1", 18) && default == TokenRow(1, "e", "0x1", 18) && native == "e"
    ensures !HasSymbol(BalanceList(WithDefault([stored], Some(default), native), native), native)
  {
    assert Lower("x")[0] == 'x' && Lower("e")[0] == 'e';
    assert stored in [stored];
    NativeListedIff([stored], Some(default), native);
  }

  lemma {:induction false} DefaultKeptIff(rows: seq<TokenRow>, default: TokenRow)
    ensures Picks(rows + [default], First(false), |rows|) <==> forall t :: t in rows ==> t.address != default.address
  {
    var all := rows + [default];
    forall t | t in rows ensures exists j :: 0 <= j < |rows| && all[j] == t {
      var j :| 0 <= j < |rows| && rows[j] == t;
      assert all[j] == t;
    }
    assert forall j :: 0 <= j < |rows| ==> all[j] in rows;
  }

  // ------------------------------------------------------------------ balances

  /** What the chain answered for one address. */
  datatype Reading = Reading(address: string, balance: string)

  /** `find` by address: the first answer for it. */
  function FindReading(readings: seq<Reading>, address: string): (r: Option<string>)
    ensures r.None? ==> forall k :: 0 <= k < |readings| ==> readings[k].address != address
  {
    if |readings| == 0 then None
    else if readings[0].address == address then Some(readings[0].balance)
    else FindReading(readings[1..], address)
  }

  lemma {:induction false} FindOwn(readings: seq<Reading>, k: nat)
    requires k < |readings| && forall j :: 0 <= j < k ==> readings[j].address != readings[k].address
    ensures FindReading(readings, readings[k].address) == Some(readings[k].balance)
  {
    if k > 0 {
      FindOwn(readings[1..], k - 1);
    }
  }

  /** Because the listed addresses differ, every entry is given the balance that was asked for it. */
  lemma {:induction false} OwnBalance(rows: seq<TokenRow>, readings: seq<Reading>, k: nat)
    requires var items := Select(rows, First(false));
             k < |items| == |readings| && forall i :: 0 <= i < |items| ==> readings[i].address == items[i].address
    ensures FindReading(readings, Select(rows, First(false))[k].address) == Some(readings[k].balance)
  {
    var firsts := Positions(rows, First(false), |rows|);
    PositionsExact(rows, First(false), |rows|);
    assert firsts[k] in firsts;
    FindOwn(readings, k);
  }
}
