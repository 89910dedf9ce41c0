/** The balance checks of a transaction. */
module Transaction {

  type TokenId = string
  type CoinId = string

  datatype Coin = Coin(id: CoinId, amount: real, token: TokenId)

  const TOKENID_CREATE: TokenId := "0xFF"
  const TOKENID_MINIMA: TokenId := "0x00"
  const BILLION := 1000000000.0

  datatype Txn = Txn(inputs: seq<Coin>, outputs: seq<Coin>)

  function Total(coins: seq<Coin>): real {
    if coins == [] then 0.0 else Total(coins[..|coins| - 1]) + coins[|coins| - 1].amount
  }

  /** The sum over the coins whose token id is exactly the given one. */
  function TotalOf(coins: seq<Coin>, token: TokenId): real {
    if coins == [] then 0.0
    else TotalOf(coins[..|coins| - 1], token) +
         if coins[|coins| - 1].token == token then coins[|coins| - 1].amount else 0.0
  }

  predicate ValidAmount(c: Coin) { 0.0 < c.amount <= BILLION }

  predicate DistinctIds(coins: seq<Coin>) {
    forall i, j :: 0 <= i < j < |coins| ==> coins[i].id != coins[j].id
  }

  /** What acceptance means: there is an input, every amount is in range, no value appears
      overall or in any token but CREATE, and no coin is spent twice. */
  ghost predicate Balanced(t: Txn) {
    && t.inputs != []
    && AllValid(t.inputs) && AllValid(t.outputs)
    && Total(t.outputs) <= Total(t.inputs)
    && NoTokenCreated(t)
    && DistinctIds(t.inputs)
  }

  predicate AllValid(coins: seq<Coin>) {
    forall c :: c in coins ==> ValidAmount(c)
  }

  ghost predicate NoTokenCreated(t: Txn) {
    forall token :: token != TOKENID_CREATE ==> TotalOf(t.outputs, token) <= TotalOf(t.inputs, token)
  }

  lemma {:induction false} TotalNonNegative(coins: seq<Coin>, token: TokenId)
    requires AllValid(coins)
    ensures TotalOf(coins, token) >= 0.0
    ensures (forall c :: c in coins ==> c.token != token) ==> TotalOf(coins, token) == 0.0
  {
    if coins != [] {
      assert ValidAmount(coins[|coins| - 1]) by {
        assert coins[|coins| - 1] in coins;
      }
      TotalNonNegative(coins[..|coins| - 1], token);
    }
  }

  method SumAll(coins: seq<Coin>) returns (tot: real)
    ensures tot == Total(coins)
  {
    tot := 0.0;
    for i := 0 to |coins|
      invariant tot == Total(coins[..i])
    {
      assert coins[..i + 1][..i] == coins[..i];
      tot := tot + coins[i].amount;
    }
    assert coins[..|coins|] == coins;
  }

  method SumToken(coins: seq<Coin>, token: TokenId) returns (tot: real)
    ensures tot == TotalOf(coins, token)
  {
    tot := 0.0;
    for i := 0 to |coins|
      invariant tot == TotalOf(coins[..i], token)
    {
      assert coins[..i + 1][..i] == coins[..i];
      if coins[i].token == token {
        tot := tot + coins[i].amount;
      }
    }
    assert coins[..|coins|] == coins;
  }

  method AmountsValid(coins: seq<Coin>) returns (ok: bool)
    ensures ok <==> AllValid(coins)
  {
    for i := 0 to |coins|
      invariant forall c :: c in coins[..i] ==> ValidAmount(c)
    {
      if !(coins[i].amount <= BILLION && coins[i].amount > 0.0) {
        assert coins[i] in coins && !ValidAmount(coins[i]);
        return false;
      }
      assert coins[..i + 1] == coins[..i] + [coins[i]];
    }
    assert coins[..|coins|] == coins;
    ok := true;
  }

  function Normal(token: TokenId): TokenId {
    if token == TOKENID_CREATE then TOKENID_MINIMA else token
  }

  /** The token ids of the outputs, each once, with CREATE turned into MINIMA. */
  method OutputTokens(outputs: seq<Coin>) returns (tokens: seq<TokenId>)
    ensures forall token :: token in tokens <==> exists c :: c in outputs && Normal(c.token) == token
  {
    tokens := [];
    for i := 0 to |outputs|
      invariant forall c :: c in outputs[..i] ==> Normal(c.token) in tokens
      invariant forall token :: token in tokens ==> exists c :: c in outputs && Normal(c.token) == token
    {
      assert outputs[..i + 1] == outputs[..i] + [outputs[i]];
      var token := Normal(outputs[i].token);
      if token !in tokens {
        tokens := tokens + [token];
      }
    }
    assert outputs[..|outputs|] == outputs;
  }

  /** The amounts per output token, and whether the inputs cover each. */
  method TokensCovered(t: Txn, tokens: seq<TokenId>) returns (ok: bool)
    ensures ok <==> forall token :: token in tokens ==> TotalOf(t.outputs, token) <= TotalOf(t.inputs, token)
  {
    var outamounts: map<TokenId, real> := map[];
    for i := 0 to |tokens|
      invariant forall k :: 0 <= k < i ==> tokens[k] in outamounts && outamounts[tokens[k]] == TotalOf(t.outputs, tokens[k])
    {
      var out := SumToken(t.outputs, tokens[i]);
      outamounts := outamounts[tokens[i] := out];
    }
    for i := 0 to |tokens|
      invariant forall k :: 0 <= k < i ==> TotalOf(t.outputs, tokens[k]) <= TotalOf(t.inputs, tokens[k])
    {
      var inamt := SumToken(t.inputs, tokens[i]);
      if inamt < outamounts[tokens[i]] {
        assert tokens[i] in tokens;
        return false;
      }
    }
    ok := true;
  }

  method InputsDistinct(inputs: seq<Coin>) returns (ok: bool)
    ensures ok <==> DistinctIds(inputs)
  {
    for i := 0 to |inputs|
      invariant forall a, b :: 0 <= a < i && a < b < |inputs| ==> inputs[a].id != inputs[b].id
    {
      for j := i + 1 to |inputs|
        invariant forall b :: i < b < j ==> inputs[i].id != inputs[b].id
      {
        if inputs[i].id == inputs[j].id {
          return false;
        }
      }
    }
    ok := true;
  }

  /** checkValid accepts exactly the balanced transactions. */
  method CheckValid(t: Txn) returns (ok: bool)
    ensures ok <==> Balanced(t)
    ensures ok <==>
            && |t.inputs| >= 1
            && (forall c :: c in t.inputs || c in t.outputs ==> 0.0 < c.amount <= 1000000000.0)
            && Total(t.outputs) <= Total(t.inputs)
            && (forall token :: token != "0xFF" ==> TotalOf(t.outputs, token) <= TotalOf(t.inputs, token))
            && (forall i, j :: 0 <= i < j < |t.inputs| ==> t.inputs[i].id != t.inputs[j].id)
  {
    if |t.inputs| < 1 {
      return false;
    }
    var totalin := SumAll(t.inputs);
    var totalout := SumAll(t.outputs);
    if totalout > totalin {
      return false;
    }
    var inOk := AmountsValid(t.inputs);
    if !inOk {
      return false;
    }
    var outOk := AmountsValid(t.outputs);
    if !outOk {
      return false;
    }
    var tokens := OutputTokens(t.outputs);
    var covered := TokensCovered(t, tokens);
    CoveredMeans(t, tokens);
    if !covered {
      return false;
    }
    ok := InputsDistinct(t.inputs);
  }

  /** Checking the tokens of the outputs checks every token but CREATE. */
  lemma CoveredMeans(t: Txn, tokens: seq<TokenId>)
    requires AllValid(t.inputs) && AllValid(t.outputs)
    requires forall token :: token in tokens <==> exists c :: c in t.outputs && Normal(c.token) == token
    ensures (forall token :: token in tokens ==> TotalOf(t.outputs, token) <= TotalOf(t.inputs, token)) <==>
            NoTokenCreated(t)
  {
    forall token | token !in tokens && token != TOKENID_CREATE
      ensures TotalOf(t.outputs, token) <= TotalOf(t.inputs, token)
    {
      forall c | c in t.outputs ensures c.token != token {
        assert Normal(c.token) in tokens;
      }
      TotalNonNegative(t.outputs, token);
      TotalNonNegative(t.inputs, token);
    }
    assert TOKENID_CREATE !in tokens;
  }

  method GetBurn(t: Txn) returns (burn: real)
    ensures burn == Total(t.inputs) - Total(t.outputs)
    ensures Balanced(t) ==> burn >= 0.0
  {
    var totalin := SumAll(t.inputs);
    var totalout := SumAll(t.outputs);
    burn := totalin - totalout;
  }

  // ---------------------------------------------------------------- CREATE outputs

  /** The tokens of a list of coins other than the two given ones. */
  function TotalElse(coins: seq<Coin>, a: TokenId, b: TokenId): real {
    if coins == [] then 0.0
    else TotalElse(coins[..|coins| - 1], a, b) +
         if coins[|coins| - 1].token == a || coins[|coins| - 1].token == b then 0.0 else coins[|coins| - 1].amount
  }

  lemma {:induction false} TotalSplits(coins: seq<Coin>, a: TokenId, b: TokenId)
    requires a != b
    ensures Total(coins) == TotalOf(coins, a) + TotalOf(coins, b) + TotalElse(coins, a, b)
  {
    if coins != [] {
      TotalSplits(coins[..|coins| - 1], a, b);
    }
  }

  /** What coins in CREATE and MINIMA amount to. */
  function CreateAndMinima(coins: seq<Coin>): real {
    TotalOf(coins, TOKENID_CREATE) + TotalOf(coins, TOKENID_MINIMA)
  }

  predicate OnlyCreateAndMinima(coins: seq<Coin>) {
    forall c :: c in coins ==> c.token == TOKENID_CREATE || c.token == TOKENID_MINIMA
  }

  /** The list of output tokens turns CREATE into MINIMA, but the sums compare raw ids. So an
      accepted transaction may pay for CREATE outputs with other tokens, by at most what those
      leave over. */
  lemma CreateCovered(t: Txn)
    requires Balanced(t)
    ensures
      var left := TotalElse(t.inputs, TOKENID_CREATE, TOKENID_MINIMA) - TotalElse(t.outputs, TOKENID_CREATE, TOKENID_MINIMA);
      CreateAndMinima(t.outputs) <= CreateAndMinima(t.inputs) + left
    ensures OnlyCreateAndMinima(t.inputs) ==> CreateAndMinima(t.outputs) <= CreateAndMinima(t.inputs)
  {
    TotalSplits(t.inputs, TOKENID_CREATE, TOKENID_MINIMA);
    TotalSplits(t.outputs, TOKENID_CREATE, TOKENID_MINIMA);
    ElseNonNegative(t.outputs);
    ElseNone(t.inputs);
  }

  /** The inputs guarantee that no accepted transaction pays for CREATE and MINIMA outputs
      with anything else if and only if they hold nothing else. */
  lemma CreateCoveredExactly(ins: seq<Coin>)
    requires ins != [] && AllValid(ins) && DistinctIds(ins)
    ensures (forall outs :: Balanced(Txn(ins, outs)) ==> CreateAndMinima(outs) <= CreateAndMinima(ins)) <==>
            OnlyCreateAndMinima(ins)
  {
    if OnlyCreateAndMinima(ins) {
      forall outs | Balanced(Txn(ins, outs)) ensures CreateAndMinima(outs) <= CreateAndMinima(ins) {
        CreateCovered(Txn(ins, outs));
      }
    } else {
      AsCreateTotals(ins);
      AsCreateBalanced(ins);
      TotalSplits(ins, TOKENID_CREATE, TOKENID_MINIMA);
      ElseSome(ins);
      assert Balanced(Txn(ins, AsCreate(ins))) && CreateAndMinima(AsCreate(ins)) > CreateAndMinima(ins);
    }
  }

  /** Every coin turned into a CREATE coin of the same amount. */
  function AsCreate(coins: seq<Coin>): (r: seq<Coin>)
    ensures |r| == |coins|
    ensures forall i :: 0 <= i < |r| ==> r[i] == Coin(coins[i].id, coins[i].amount, TOKENID_CREATE)
  {
    if coins == [] then []
    else
      var last := coins[|coins| - 1];
      AsCreate(coins[..|coins| - 1]) + [Coin(last.id, last.amount, TOKENID_CREATE)]
  }

  lemma {:induction false} AsCreateTotals(coins: seq<Coin>)
    ensures Total(AsCreate(coins)) == Total(coins) == TotalOf(AsCreate(coins), TOKENID_CREATE)
    ensures forall token :: token != TOKENID_CREATE ==> TotalOf(AsCreate(coins), token) == 0.0
  {
    if coins != [] {
      var rest, last := coins[..|coins| - 1], coins[|coins| - 1];
      var c := Coin(last.id, last.amount, TOKENID_CREATE);
      AsCreateTotals(rest);
      Appended(AsCreate(rest), c, TOKENID_CREATE);
      forall token | token != TOKENID_CREATE ensures TotalOf(AsCreate(coins), token) == 0.0 {
        Appended(AsCreate(rest), c, token);
      }
    }
  }

  lemma AsCreateBalanced(ins: seq<Coin>)
    requires ins != [] && AllValid(ins) && DistinctIds(ins)
    ensures Balanced(Txn(ins, AsCreate(ins)))
  {
    AsCreateTotals(ins);
    forall i | 0 <= i < |ins| ensures ValidAmount(AsCreate(ins)[i]) {
      assert ins[i] in ins;
    }
    forall token | token != TOKENID_CREATE ensures TotalOf(AsCreate(ins), token) <= TotalOf(ins, token) {
      TotalNonNegative(ins, token);
    }
  }

  lemma {:induction false} ElseSome(coins: seq<Coin>)
    requires AllValid(coins) && !OnlyCreateAndMinima(coins)
    ensures TotalElse(coins, TOKENID_CREATE, TOKENID_MINIMA) > 0.0
  {
    var rest, last := coins[..|coins| - 1], coins[|coins| - 1];
    assert coins == rest + [last] && ValidAmount(last);
    if OnlyCreateAndMinima(rest) {
      ElseNone(rest);
    } else {
      ElseSome(rest);
    }
  }

  lemma {:induction false} ElseNonNegative(coins: seq<Coin>)
    requires AllValid(coins)
    ensures TotalElse(coins, TOKENID_CREATE, TOKENID_MINIMA) >= 0.0
  {
    if coins != [] {
      assert ValidAmount(coins[|coins| - 1]) by {
        assert coins[|coins| - 1] in coins;
      }
      ElseNonNegative(coins[..|coins| - 1]);
    }
  }

  lemma {:induction false} ElseNone(coins: seq<Coin>)
    ensures (forall c :: c in coins ==> c.token == TOKENID_CREATE || c.token == TOKENID_MINIMA) ==>
              TotalElse(coins, TOKENID_CREATE, TOKENID_MINIMA) == 0.0
  {
    if coins != [] {
      assert coins[|coins| - 1] in coins;
      ElseNone(coins[..|coins| - 1]);
    }
  }

  /** An accepted transaction whose CREATE output is not covered by its MINIMA input. */
  lemma CreateNotCovered()
    ensures
      var t := Txn([Coin("1", 1.0, TOKENID_MINIMA), Coin("2", 10.0, "0xAB")], [Coin("3", 5.0, TOKENID_CREATE)]);
      Balanced(t) && TotalOf(t.outputs, TOKENID_CREATE) > TotalOf(t.inputs, TOKENID_MINIMA)
  {
    var a, b, c := Coin("1", 1.0, TOKENID_MINIMA), Coin("2", 10.0, "0xAB"), Coin("3", 5.0, TOKENID_CREATE);
    forall token ensures token != TOKENID_CREATE ==> TotalOf([c], token) <= TotalOf([a, b], token) {
      TotalsOfFew(a, b, token);
      TotalsOfFew(c, a, token);
    }
    TotalsOfFew(a, b, TOKENID_MINIMA);
    TotalsOfFew(c, a, TOKENID_CREATE);
    assert DifferentIds(a, b);
  }

  predicate DifferentIds(a: Coin, b: Coin) { a.id != b.id }

  /** The sums of one coin and of two. */
  lemma TotalsOfFew(a: Coin, b: Coin, token: TokenId)
    ensures Total([a]) == a.amount && Total([a, b]) == a.amount + b.amount
    ensures TotalOf([a], token) == if a.token == token then a.amount else 0.0
    ensures TotalOf([a, b], token) == TotalOf([a], token) + if b.token == token then b.amount else 0.0
  {
    Appended([], a, token);
    Appended([a], b, token);
    assert [] + [a] == [a] && [a] + [b] == [a, b];
  }

  lemma Appended(coins: seq<Coin>, c: Coin, token: TokenId)
    ensures Total(coins + [c]) == Total(coins) + c.amount
    ensures TotalOf(coins + [c], token) == TotalOf(coins, token) + if c.token == token then c.amount else 0.0
  {
    assert (coins + [c])[..|coins|] == coins;
  }
}
