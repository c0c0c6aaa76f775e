/** Minimum-weight change (troco/troco.c): a one-dimensional table of the
    least total coin weight for every amount up to the change, with the
    value of the last coin used, filled in increasing amount order; then a
    walk back through the last-coin table that counts the coins used. */
module Troco {

  /** An entry of peso_minimo: LLONG_MAX marks an unreachable amount. */
  datatype Weight = Inf | Fin(w: int)

  /** What the function reports: no way to pay the change, or the least
      total weight with the coin counts of the walk back. */
  datatype Resultado = Inalcancavel | Otimo(peso: int, contagem: seq<nat>)

  /** The walk back needs coin values of at least 1 (a smaller value would
      make the fill read outside the table or not make progress). */
  predicate Positive(valores: seq<int>)
  {
    forall j :: 0 <= j < |valores| ==> valores[j] >= 1
  }

  predicate Distinct(valores: seq<int>)
  {
    forall i, j :: 0 <= i < j < |valores| ==> valores[i] != valores[j]
  }

  // ---------------------------------------------------------------------
  // Coin multisets as count vectors
  // ---------------------------------------------------------------------

  /** Sum of cnt[i] * xs[i]: the value (xs = valores) or the weight
      (xs = pesos) of a multiset of coins given by its counts. */
  function Dot(cnt: seq<nat>, xs: seq<int>): int
    requires |cnt| == |xs|
  {
    if |cnt| == 0 then 0 else cnt[0] * xs[0] + Dot(cnt[1..], xs[1..])
  }

  /** cnt is a multiset of the n coin kinds whose values add up to v. */
  ghost predicate Makes(cnt: seq<nat>, valores: seq<int>, v: int)
  {
    |cnt| == |valores| && Dot(cnt, valores) == v
  }

  /** Some multiset of coins pays exactly v. */
  ghost predicate Reachable(valores: seq<int>, v: int)
  {
    exists cnt: seq<nat> :: Makes(cnt, valores, v)
  }

  /** w is the least total weight of a multiset of coins paying exactly v. */
  ghost predicate MinWeight(valores: seq<int>, pesos: seq<int>, v: int, w: int)
    requires |valores| == |pesos|
  {
    && (exists cnt: seq<nat> :: Makes(cnt, valores, v) && Dot(cnt, pesos) == w)
    && (forall cnt: seq<nat> :: Makes(cnt, valores, v) ==> w <= Dot(cnt, pesos))
  }

  function Zeros(n: nat): (z: seq<nat>)
    ensures |z| == n && forall i :: 0 <= i < n ==> z[i] == 0
  {
    seq(n, i => 0)
  }

  lemma {:induction false} DotZeros(cnt: seq<nat>, xs: seq<int>)
    requires |cnt| == |xs|
    requires forall i :: 0 <= i < |cnt| ==> cnt[i] == 0
    ensures Dot(cnt, xs) == 0
  {
    if |cnt| > 0 {
      DotZeros(cnt[1..], xs[1..]);
    }
  }

  /** One more coin of kind k adds its value (or weight) once. */
  lemma {:induction false} DotIncrement(cnt: seq<nat>, xs: seq<int>, k: int)
    requires |cnt| == |xs| && 0 <= k < |cnt|
    ensures Dot(cnt[k := cnt[k] + 1], xs) == Dot(cnt, xs) + xs[k]
  {
    var more := cnt[k := cnt[k] + 1];
    if k == 0 {
      assert more[1..] == cnt[1..];
      assert more[0] * xs[0] == cnt[0] * xs[0] + xs[0];
    } else {
      assert more[1..] == cnt[1..][k - 1 := cnt[k] + 1];
      DotIncrement(cnt[1..], xs[1..], k - 1);
    }
  }

  lemma {:induction false} DotNonneg(cnt: seq<nat>, xs: seq<int>)
    requires |cnt| == |xs| && Positive(xs)
    ensures Dot(cnt, xs) >= 0
  {
    if |cnt| > 0 {
      DotNonneg(cnt[1..], xs[1..]);
      assert cnt[0] * xs[0] >= 0;
    }
  }

  // ---------------------------------------------------------------------
  // The table and its recurrence
  // ---------------------------------------------------------------------

  /** Coin k can end a payment of v: its value fits, and the rest v - value
      is reachable in the finished part prev = peso_minimo[..v]. */
  predicate Candidate(valores: seq<int>, prev: seq<Weight>, v: int, k: int)
    requires |prev| == v && 0 <= k < |valores|
  {
    1 <= valores[k] <= v && prev[v - valores[k]].Fin?
  }

  /** pesos[k] + peso_minimo[v - valores[k]]: the weight of paying v with
      coin k last. */
  function Via(valores: seq<int>, pesos: seq<int>, prev: seq<Weight>, v: int, k: int): int
    requires |valores| == |pesos| && |prev| == v && 0 <= k < |valores|
    requires Candidate(valores, prev, v, k)
  {
    pesos[k] + prev[v - valores[k]].w
  }

  /** Coin j is the lowest-index coin among the first m whose weight is
      least: no candidate weighs less, and no earlier candidate weighs the
      same (the strict > of the update keeps the first minimum). */
  ghost predicate Winner(valores: seq<int>, pesos: seq<int>, prev: seq<Weight>, v: int, m: int, j: int)
    requires |valores| == |pesos| && |prev| == v && 0 <= m <= |valores|
  {
    && 0 <= j < m
    && Candidate(valores, prev, v, j)
    && forall k :: 0 <= k < m && Candidate(valores, prev, v, k) ==>
         Via(valores, pesos, prev, v, j) <= Via(valores, pesos, prev, v, k)
         && (k < j ==> Via(valores, pesos, prev, v, j) < Via(valores, pesos, prev, v, k))
  }

  /** (cur, last) is what peso_minimo[v] and ultima_moeda[v] hold once
      the first m coins are tried: the sentinel and -1 if none of them
      is a candidate, else the winner's weight and value. */
  ghost predicate BestAmong(valores: seq<int>, pesos: seq<int>, prev: seq<Weight>, v: int, m: int,
                            cur: Weight, last: int)
    requires |valores| == |pesos| && |prev| == v && 0 <= m <= |valores|
  {
    if forall k :: 0 <= k < m ==> !Candidate(valores, prev, v, k) then
      cur == Inf && last == -1
    else
      exists j :: Winner(valores, pesos, prev, v, m, j)
                  && cur == Fin(Via(valores, pesos, prev, v, j)) && last == valores[j]
  }

  /** Entry v of the finished table follows the recurrence over all coins. */
  ghost predicate RecurrenceAt(valores: seq<int>, pesos: seq<int>, pm: seq<Weight>, um: seq<int>, v: int)
    requires |valores| == |pesos| && 0 <= v < |pm| && |um| == |pm|
  {
    BestAmong(valores, pesos, pm[..v], v, |valores|, pm[v], um[v])
  }

  /** The table after the fill: amount 0 costs nothing, and every other
      entry up to troco follows the recurrence. */
  ghost predicate IsTable(valores: seq<int>, pesos: seq<int>, pm: seq<Weight>, um: seq<int>, troco: int)
  {
    && |valores| == |pesos|
    && troco >= 0 && |pm| == troco + 1 && |um| == troco + 1
    && pm[0] == Fin(0) && um[0] == 0
    && forall v :: 1 <= v <= troco ==> RecurrenceAt(valores, pesos, pm, um, v)
  }

  /** peso_minimo[v] > x, where LLONG_MAX exceeds every finite weight. */
  function Exceeds(cur: Weight, x: int): (r: bool)
    ensures cur.Fin? ==> (r <==> cur.w > x)
    ensures cur.Inf? ==> r
  {
    match cur
    case Inf => true
    case Fin(w) => w > x
  }

  /** LLONG_MAX, the value peso_minimo holds for an unreachable amount. */
  const LLongMax: int := 0x7fff_ffff_ffff_ffff

  /** The long long an entry is stored as: the sentinel for Inf. */
  function AsLongLong(cur: Weight): int
  {
    if cur.Inf? then LLongMax else cur.w
  }

  /** While weights stay below LLONG_MAX, Exceeds is the source's test
      peso_minimo[v] > peso_moeda + peso_minimo[v - valor_moeda] on the
      stored long longs. */
  lemma ExceedsMatchesSentinelCompare(cur: Weight, x: int)
    requires x < LLongMax && (cur.Fin? ==> cur.w < LLongMax)
    ensures Exceeds(cur, x) <==> AsLongLong(cur) > x
  {
  }

  /** One pass of the inner loop: trying coin m keeps the winner among the
      coins tried so far. */
  lemma BestStep(valores: seq<int>, pesos: seq<int>, prev: seq<Weight>, v: int, m: int, cur: Weight, last: int)
    requires |valores| == |pesos| && |prev| == v && 0 <= m < |valores|
    requires BestAmong(valores, pesos, prev, v, m, cur, last)
    ensures var take := Candidate(valores, prev, v, m) && Exceeds(cur, Via(valores, pesos, prev, v, m));
      BestAmong(valores, pesos, prev, v, m + 1,
                if take then Fin(Via(valores, pesos, prev, v, m)) else cur,
                if take then valores[m] else last)
  {
    var none := forall k :: 0 <= k < m ==> !Candidate(valores, prev, v, k);
    if Candidate(valores, prev, v, m) {
      var x := Via(valores, pesos, prev, v, m);
      if none {
        assert Winner(valores, pesos, prev, v, m + 1, m);
      } else {
        var j :| Winner(valores, pesos, prev, v, m, j)
                 && cur == Fin(Via(valores, pesos, prev, v, j)) && last == valores[j];
        if Exceeds(cur, x) {
          assert Winner(valores, pesos, prev, v, m + 1, m);
        } else {
          assert Winner(valores, pesos, prev, v, m + 1, j);
        }
      }
    } else if !none {
      var j :| Winner(valores, pesos, prev, v, m, j)
               && cur == Fin(Via(valores, pesos, prev, v, j)) && last == valores[j];
      assert Winner(valores, pesos, prev, v, m + 1, j);
    }
  }

  /** A finite entry above 0 was set by a winning coin: ultima_moeda[v] is
      its value, it fits in v, the rest is reachable, and the entry is the
      coin's weight plus the rest's entry. */
  lemma WinnerAt(valores: seq<int>, pesos: seq<int>, pm: seq<Weight>, um: seq<int>, troco: int, v: int)
    returns (j: int)
    requires IsTable(valores, pesos, pm, um, troco)
    requires 1 <= v <= troco && pm[v].Fin?
    ensures 0 <= j < |valores| && Winner(valores, pesos, pm[..v], v, |valores|, j)
    ensures um[v] == valores[j] && 1 <= valores[j] <= v
    ensures pm[v - valores[j]].Fin? && pm[v].w == pesos[j] + pm[v - valores[j]].w
  {
    assert RecurrenceAt(valores, pesos, pm, um, v);
    j :| Winner(valores, pesos, pm[..v], v, |valores|, j)
         && pm[v] == Fin(Via(valores, pesos, pm[..v], v, j)) && um[v] == valores[j];
  }

  // ---------------------------------------------------------------------
  // Optimality of the table
  // ---------------------------------------------------------------------

  /** Every multiset of coins paying v weighs at least peso_minimo[v], and
      in particular makes that entry finite. */
  lemma {:induction false} TableIsLowerBound(valores: seq<int>, pesos: seq<int>, pm: seq<Weight>, um: seq<int>,
                                             troco: int, v: int, cnt: seq<nat>)
    requires IsTable(valores, pesos, pm, um, troco) && Positive(valores)
    requires 0 <= v <= troco && Makes(cnt, valores, v)
    ensures pm[v].Fin? && pm[v].w <= Dot(cnt, pesos)
    decreases v
  {
    if k :| 0 <= k < |cnt| && cnt[k] > 0 {
      var rest := cnt[k := cnt[k] - 1];
      assert rest[k := rest[k] + 1] == cnt;
      DotIncrement(rest, valores, k);
      DotIncrement(rest, pesos, k);
      DotNonneg(rest, valores);
      var u := v - valores[k];
      TableIsLowerBound(valores, pesos, pm, um, troco, u, rest);
      var prev := pm[..v];
      assert prev[u] == pm[u];
      assert Candidate(valores, prev, v, k);
      assert RecurrenceAt(valores, pesos, pm, um, v);
      var j :| Winner(valores, pesos, prev, v, |valores|, j)
               && pm[v] == Fin(Via(valores, pesos, prev, v, j)) && um[v] == valores[j];
      assert Via(valores, pesos, prev, v, k) <= Dot(cnt, pesos);
    } else {
      DotZeros(cnt, valores);
      DotZeros(cnt, pesos);
    }
  }

  /** Every finite entry is the weight of some multiset of coins paying
      that amount (follow the winners down to 0). */
  lemma {:induction false} TableIsAchieved(valores: seq<int>, pesos: seq<int>, pm: seq<Weight>, um: seq<int>,
                                           troco: int, v: int)
    returns (cnt: seq<nat>)
    requires IsTable(valores, pesos, pm, um, troco)
    requires 0 <= v <= troco && pm[v].Fin?
    ensures Makes(cnt, valores, v) && Dot(cnt, pesos) == pm[v].w
    decreases v
  {
    if v == 0 {
      cnt := Zeros(|valores|);
      DotZeros(cnt, valores);
      DotZeros(cnt, pesos);
    } else {
      var j := WinnerAt(valores, pesos, pm, um, troco, v);
      var rest := TableIsAchieved(valores, pesos, pm, um, troco, v - valores[j]);
      cnt := rest[j := rest[j] + 1];
      DotIncrement(rest, valores, j);
      DotIncrement(rest, pesos, j);
    }
  }

  /** What the table means: an entry is the sentinel exactly when no
      multiset of coins pays that amount, and otherwise it is the least
      weight of one that does. */
  lemma TableOptimal(valores: seq<int>, pesos: seq<int>, pm: seq<Weight>, um: seq<int>, troco: int, v: int)
    requires IsTable(valores, pesos, pm, um, troco) && Positive(valores)
    requires 0 <= v <= troco
    ensures pm[v].Inf? <==> !Reachable(valores, v)
    ensures pm[v].Fin? ==> MinWeight(valores, pesos, v, pm[v].w)
  {
    if pm[v].Fin? {
      var cnt := TableIsAchieved(valores, pesos, pm, um, troco, v);
      forall other: seq<nat> | Makes(other, valores, v)
        ensures pm[v].w <= Dot(other, pesos)
      {
        TableIsLowerBound(valores, pesos, pm, um, troco, v, other);
      }
    } else {
      forall other: seq<nat> | Makes(other, valores, v)
        ensures false
      {
        TableIsLowerBound(valores, pesos, pm, um, troco, v, other);
      }
    }
  }

  // ---------------------------------------------------------------------
  // The three steps of encontrarTrocoOtimoComPeso
  // ---------------------------------------------------------------------

  /** Step 1: peso_minimo[0] = 0 and ultima_moeda[0] = 0; every other
      amount up to troco starts unreachable, with no last coin (-1). */
  method Inicializar(troco: int) returns (pm: seq<Weight>, um: seq<int>)
    requires troco >= 0
    ensures |pm| == troco + 1 && |um| == troco + 1
    ensures pm[0] == Fin(0) && um[0] == 0
    ensures forall v :: 1 <= v <= troco ==> pm[v] == Inf && um[v] == -1
  {
    pm := [Fin(0)];
    um := [0];
    var i := 1;
    while i <= troco
      invariant 1 <= i <= troco + 1
      invariant |pm| == i && |um| == i
      invariant pm[0] == Fin(0) && um[0] == 0
      invariant forall v :: 1 <= v < i ==> pm[v] == Inf && um[v] == -1
    {
      pm := pm + [Inf];
      um := um + [-1];
      i := i + 1;
    }
  }

  /** Entries below v are final: changing only entries from v on keeps
      their recurrence. */
  lemma TableFrame(valores: seq<int>, pesos: seq<int>, pm: seq<Weight>, um: seq<int>,
                   pm': seq<Weight>, um': seq<int>, v: int)
    requires |valores| == |pesos| && |pm| == |um| == |pm'| == |um'| && 0 <= v <= |pm|
    requires pm'[..v] == pm[..v] && um'[..v] == um[..v]
    requires forall u :: 1 <= u < v ==> RecurrenceAt(valores, pesos, pm, um, u)
    ensures forall u :: 1 <= u < v ==> RecurrenceAt(valores, pesos, pm', um', u)
  {
    forall u | 1 <= u < v
      ensures RecurrenceAt(valores, pesos, pm', um', u)
    {
      assert pm'[..u] == pm'[..v][..u] == pm[..v][..u] == pm[..u];
      assert pm'[u] == pm'[..v][u] == pm[..v][u] == pm[u];
      assert um'[u] == um'[..v][u] == um[..v][u] == um[u];
      assert RecurrenceAt(valores, pesos, pm, um, u);
    }
  }

  /** Step 2: for v = 1 .. troco, settle entry v from the entries below
      it (TentarMoedas). The result follows the recurrence at every
      amount. */
  method PreencherTabela(valores: seq<int>, pesos: seq<int>, troco: int) returns (pm: seq<Weight>, um: seq<int>)
    requires |valores| == |pesos| && troco >= 0 && Positive(valores)
    ensures IsTable(valores, pesos, pm, um, troco)
  {
    pm, um := Inicializar(troco);
    var v := 1;
    while v <= troco
      invariant 1 <= v <= troco + 1
      invariant |pm| == troco + 1 && |um| == troco + 1
      invariant pm[0] == Fin(0) && um[0] == 0
      invariant forall u :: 1 <= u < v ==> RecurrenceAt(valores, pesos, pm, um, u)
      invariant forall u :: v <= u <= troco ==> pm[u] == Inf && um[u] == -1
    {
      ghost var pm0, um0 := pm, um;
      pm, um := TentarMoedas(valores, pesos, pm, um, v);
      assert pm[..v] == pm0[..v] && um[..v] == um0[..v];
      TableFrame(valores, pesos, pm0, um0, pm, um, v);
      v := v + 1;
    }
  }

  /** The inner loop of step 2 at amount v: try every coin in index order
      and keep pesos[j] + peso_minimo[v - valores[j]] when the rest is
      reachable and it is strictly lighter than the entry so far. Entry v
      is held in cur and last while the loop runs (only that entry
      changes); it ends up following the recurrence. */
  method TentarMoedas(valores: seq<int>, pesos: seq<int>, pm: seq<Weight>, um: seq<int>, v: int)
    returns (pm': seq<Weight>, um': seq<int>)
    requires |valores| == |pesos| && Positive(valores)
    requires 1 <= v < |pm| && |um| == |pm|
    requires pm[v] == Inf && um[v] == -1
    ensures |pm'| == |pm| && |um'| == |um|
    ensures pm' == pm[v := pm'[v]] && um' == um[v := um'[v]]
    ensures RecurrenceAt(valores, pesos, pm', um', v)
  {
    ghost var prev := pm[..v];
    var cur, last := pm[v], um[v];
    var j := 0;
    while j < |valores|
      invariant 0 <= j <= |valores|
      invariant BestAmong(valores, pesos, prev, v, j, cur, last)
    {
      cur, last := TentarMoeda(valores, pesos, pm, v, j, cur, last);
      j := j + 1;
    }
    pm' := pm[v := cur];
    um' := um[v := last];
    assert pm'[..v] == prev;
  }

  /** One pass of that loop, for coin j: when the coin fits, the rest is
      not the sentinel, and the entry so far exceeds the new weight, the
      entry becomes that weight and the last coin this coin's value. Coin j
      joins the coins tried, and the entry stays the best among them. */
  method TentarMoeda(valores: seq<int>, pesos: seq<int>, pm: seq<Weight>, v: int, j: int, cur: Weight, last: int)
    returns (cur': Weight, last': int)
    requires |valores| == |pesos| && Positive(valores)
    requires 1 <= v < |pm| && 0 <= j < |valores|
    requires BestAmong(valores, pesos, pm[..v], v, j, cur, last)
    ensures BestAmong(valores, pesos, pm[..v], v, j + 1, cur', last')
  {
    var valorMoeda := valores[j];
    var pesoMoeda := pesos[j];
    BestStep(valores, pesos, pm[..v], v, j, cur, last);
    cur', last' := cur, last;
    if valorMoeda <= v {
      assert pm[..v][v - valorMoeda] == pm[v - valorMoeda];
      if pm[v - valorMoeda] != Inf && Exceeds(cur, pesoMoeda + pm[v - valorMoeda].w) {
        cur' := Fin(pesoMoeda + pm[v - valorMoeda].w);
        last' := valorMoeda;
      }
    }
  }

  /** The kind the walk back credits for a coin of value x: the first
      kind with that value (|valores| when there is none). */
  function PrimeiraComValor(valores: seq<int>, x: int): (i: nat)
    ensures i <= |valores|
    ensures i < |valores| ==> valores[i] == x
    ensures forall k :: 0 <= k < i ==> valores[k] != x
  {
    if |valores| == 0 then 0
    else if valores[0] == x then 0
    else 1 + PrimeiraComValor(valores[1..], x)
  }

  /** The counts the walk back of step 4 ends with, from counts cnt at
      amount v: while v > 0, one more coin of the first kind with value
      ultima_moeda[v], and v drops by that value. It stops early at an
      entry that is not a coin value in 1 .. v, which a table never holds
      on the walk from a reachable amount. */
  ghost function Caminho(valores: seq<int>, um: seq<int>, cnt: seq<nat>, v: int): (r: seq<nat>)
    requires |cnt| == |valores| && v < |um|
    ensures |r| == |valores|
    decreases v
  {
    if v <= 0 || !(1 <= um[v] <= v) then cnt
    else
      var i := PrimeiraComValor(valores, um[v]);
      Caminho(valores, um, if i < |cnt| then cnt[i := cnt[i] + 1] else cnt, v - um[v])
  }

  /** Step 4 as written: from troco, repeatedly take ultima_moeda of the
      current amount, count one coin of the first kind with that value, and
      subtract it, until 0. The amount drops by a coin value of at least 1
      each time, so the walk ends; the counted coins pay troco exactly, and
      when coin values are distinct they weigh peso_minimo[troco]. With a
      repeated value the credited kind need not be the one that set the
      entry (RepeatedValueMiscounts). */
  method ReconstruirComoEscrito(valores: seq<int>, pesos: seq<int>, pm: seq<Weight>, um: seq<int>, troco: int)
    returns (contagem: seq<nat>)
    requires IsTable(valores, pesos, pm, um, troco) && Positive(valores)
    requires pm[troco].Fin?
    ensures contagem == Caminho(valores, um, Zeros(|valores|), troco)
    ensures Makes(contagem, valores, troco)
    ensures Distinct(valores) ==> Dot(contagem, pesos) == pm[troco].w
  {
    contagem := Zeros(|valores|);
    DotZeros(contagem, valores);
    DotZeros(contagem, pesos);
    var valorAtual := troco;
    while valorAtual > 0
      invariant 0 <= valorAtual <= troco && pm[valorAtual].Fin?
      invariant |contagem| == |valores|
      invariant Caminho(valores, um, contagem, valorAtual) == Caminho(valores, um, Zeros(|valores|), troco)
      invariant Dot(contagem, valores) == troco - valorAtual
      invariant Distinct(valores) ==> Dot(contagem, pesos) + pm[valorAtual].w == pm[troco].w
      decreases valorAtual
    {
      var moedaValor := um[valorAtual];
      ghost var j := WinnerAt(valores, pesos, pm, um, troco, valorAtual);
      ghost var before := contagem;
      var i := 0;
      while i < |valores|
        invariant 0 <= i <= j
        invariant contagem == before
        invariant forall k :: 0 <= k < i ==> valores[k] != moedaValor
      {
        if valores[i] == moedaValor {
          contagem := contagem[i := contagem[i] + 1];
          DotIncrement(before, valores, i);
          DotIncrement(before, pesos, i);
          assert i == PrimeiraComValor(valores, moedaValor);
          break;
        }
        i := i + 1;
      }
      valorAtual := valorAtual - moedaValor;
    }
  }

  /** With two coins of value 1 weighing 5 and 3 and a change of 1, the
      table holds 3 (the second coin), but the walk back as written counts
      the first coin, whose weight is 5. */
  lemma RepeatedValueMiscounts(pm: seq<Weight>, um: seq<int>)
    requires IsTable([1, 1], [5, 3], pm, um, 1)
    ensures pm[1] == Fin(3) && um[1] == 1
    ensures Caminho([1, 1], um, Zeros(2), 1) == [1, 0]
    ensures Dot([1, 0], [5, 3]) == 5 != pm[1].w
  {
    var valores, pesos: seq<int> := [1, 1], [5, 3];
    var prev := pm[..1];
    assert prev[0] == Fin(0);
    assert Candidate(valores, prev, 1, 0) && Candidate(valores, prev, 1, 1);
    assert RecurrenceAt(valores, pesos, pm, um, 1);
    var j :| Winner(valores, pesos, prev, 1, 2, j)
             && pm[1] == Fin(Via(valores, pesos, prev, 1, j)) && um[1] == valores[j];
    assert Via(valores, pesos, prev, 1, 0) == 5 && Via(valores, pesos, prev, 1, 1) == 3;
    assert j == 1;
    assert Zeros(2) == [0, 0];
    assert [0, 0][0 := 1] == [1, 0];
  }

  /** Step 4 corrected: as written, except that the coin counted is the
      first kind with value ultima_moeda[v] whose weight plus the rest's
      entry is entry v, that is, a kind that can have set the entry. The
      counted coins pay troco exactly and weigh peso_minimo[troco], whether
      or not values repeat; with distinct values they are the counts of the
      walk as written. */
  method Reconstruir(valores: seq<int>, pesos: seq<int>, pm: seq<Weight>, um: seq<int>, troco: int)
    returns (contagem: seq<nat>)
    requires IsTable(valores, pesos, pm, um, troco) && Positive(valores)
    requires pm[troco].Fin?
    ensures Makes(contagem, valores, troco)
    ensures Dot(contagem, pesos) == pm[troco].w
    ensures Distinct(valores) ==> contagem == Caminho(valores, um, Zeros(|valores|), troco)
  {
    contagem := Zeros(|valores|);
    DotZeros(contagem, valores);
    DotZeros(contagem, pesos);
    var valorAtual := troco;
    while valorAtual > 0
      invariant 0 <= valorAtual <= troco && pm[valorAtual].Fin?
      invariant |contagem| == |valores|
      invariant Dot(contagem, valores) == troco - valorAtual
      invariant Dot(contagem, pesos) + pm[valorAtual].w == pm[troco].w
      invariant Distinct(valores) ==>
        Caminho(valores, um, contagem, valorAtual) == Caminho(valores, um, Zeros(|valores|), troco)
      decreases valorAtual
    {
      var moedaValor := um[valorAtual];
      ghost var j := WinnerAt(valores, pesos, pm, um, troco, valorAtual);
      var resto := valorAtual - moedaValor;
      ghost var before := contagem;
      var i := 0;
      while i < |valores|
        invariant 0 <= i <= j
        invariant contagem == before
      {
        if valores[i] == moedaValor && pesos[i] + pm[resto].w == pm[valorAtual].w {
          contagem := contagem[i := contagem[i] + 1];
          DotIncrement(before, valores, i);
          DotIncrement(before, pesos, i);
          if Distinct(valores) {
            assert i == PrimeiraComValor(valores, moedaValor);
          }
          break;
        }
        i := i + 1;
      }
      valorAtual := resto;
    }
  }

  /** encontrarTrocoOtimoComPeso as written, without its printing: as
      EncontrarTrocoOtimoComPeso, but with the walk back of the source, so
      the counts weigh the reported minimum only when values are distinct. */
  method EncontrarTrocoComoEscrito(valores: seq<int>, pesos: seq<int>, troco: int) returns (r: Resultado)
    requires |valores| == |pesos| && troco >= 0 && Positive(valores)
    ensures r.Inalcancavel? <==> !Reachable(valores, troco)
    ensures r.Otimo? ==> MinWeight(valores, pesos, troco, r.peso)
    ensures r.Otimo? ==> Makes(r.contagem, valores, troco)
    ensures r.Otimo? && Distinct(valores) ==> Dot(r.contagem, pesos) == r.peso
  {
    var pesoMinimo, ultimaMoeda := PreencherTabela(valores, pesos, troco);
    TableOptimal(valores, pesos, pesoMinimo, ultimaMoeda, troco, troco);
    if pesoMinimo[troco] == Inf {
      r := Inalcancavel;
    } else {
      var contagem := ReconstruirComoEscrito(valores, pesos, pesoMinimo, ultimaMoeda, troco);
      r := Otimo(pesoMinimo[troco].w, contagem);
    }
  }

  /** encontrarTrocoOtimoComPeso without its printing: fill the table;
      report that troco cannot be paid when its entry is the sentinel;
      otherwise report the least weight and the coin counts of the
      corrected walk back. */
  method EncontrarTrocoOtimoComPeso(valores: seq<int>, pesos: seq<int>, troco: int) returns (r: Resultado)
    requires |valores| == |pesos| && troco >= 0 && Positive(valores)
    ensures r.Inalcancavel? <==> !Reachable(valores, troco)
    ensures r.Otimo? ==> MinWeight(valores, pesos, troco, r.peso)
    ensures r.Otimo? ==> Makes(r.contagem, valores, troco)
    ensures r.Otimo? ==> Dot(r.contagem, pesos) == r.peso
  {
    var pesoMinimo, ultimaMoeda := PreencherTabela(valores, pesos, troco);
    TableOptimal(valores, pesos, pesoMinimo, ultimaMoeda, troco, troco);
    if pesoMinimo[troco] == Inf {
      r := Inalcancavel;
    } else {
      var contagem := Reconstruir(valores, pesos, pesoMinimo, ultimaMoeda, troco);
      r := Otimo(pesoMinimo[troco].w, contagem);
    }
  }
}
