/**
 Token economics: fee routing (node/runtime/src/reward_miner.rs) and the inflationary reward
 (node/runtime/src/lib.rs). A withdrawn fee is an imbalance: crediting it leaves total issuance alone,
 dropping it burns it.
 */
module Ledger {
  import opened Wrappers

  type Account = nat

  const MAX_TOKENS: nat := 1_000_000_000_000_000_000

  // ----- the block author -----

  const POW_ENGINE_ID := "pow_"

  datatype Log = PreRuntime(engine: string, data: string) | OtherLog

  /** The account a log item names, if it is a PoW pre-runtime digest with a decodable account. */
  function Author(log: Log, decode: string -> Option<Account>): Option<Account> {
    match log
    case PreRuntime(id, data) => if id == POW_ENGINE_ID then decode(data) else None
    case OtherLog => None
  }

  /** Item `i` is the first PoW pre-runtime digest whose account decodes. */
  ghost predicate FirstAuthor(logs: seq<Log>, decode: string -> Option<Account>, i: nat) {
    i < |logs| && logs[i].PreRuntime? && logs[i].engine == "pow_" && decode(logs[i].data).Some? &&
    forall j | 0 <= j < i :: logs[j].PreRuntime? && logs[j].engine == "pow_" ==> decode(logs[j].data).None?
  }

  lemma FirstAuthorCons(logs: seq<Log>, decode: string -> Option<Account>)
    requires logs != []
    ensures FirstAuthor(logs, decode, 0) <==> Author(logs[0], decode).Some?
    ensures Author(logs[0], decode).Some? ==>
              Author(logs[0], decode) == decode(logs[0].data) &&
              forall i: nat :: FirstAuthor(logs, decode, i) ==> i == 0
    ensures Author(logs[0], decode).None? ==>
              forall i: nat :: FirstAuthor(logs, decode, i + 1) <==> FirstAuthor(logs[1..], decode, i)
  {
    if Author(logs[0], decode).None? {
      forall i: nat
        ensures FirstAuthor(logs, decode, i + 1) <==> FirstAuthor(logs[1..], decode, i)
      {
        FirstAuthorLater(logs, decode, i);
      }
    }
  }

  lemma FirstAuthorLater(logs: seq<Log>, decode: string -> Option<Account>, i: nat)
    requires logs != [] && Author(logs[0], decode).None?
    ensures FirstAuthor(logs, decode, i + 1) <==> FirstAuthor(logs[1..], decode, i)
  {
    var t := logs[1..];
    assert forall j | 0 <= j < |t| :: t[j] == logs[j + 1];
    if FirstAuthor(t, decode, i) {
      forall j | 0 <= j < i + 1
        ensures logs[j].PreRuntime? && logs[j].engine == "pow_" ==> decode(logs[j].data).None?
      {
        assert j > 0 ==> t[j - 1] == logs[j];
      }
    }
  }

  /** The first decodable PoW author among the digest logs. */
  function GetBlockMiner(logs: seq<Log>, decode: string -> Option<Account>): (r: Option<Account>)
    ensures r.None? <==> forall i: nat :: !FirstAuthor(logs, decode, i)
    ensures forall i: nat :: FirstAuthor(logs, decode, i) ==> r == decode(logs[i].data)
  {
    if logs == [] then None
    else
      var first := Author(logs[0], decode);
      FirstAuthorCons(logs, decode);
      if first.Some? then first else GetBlockMiner(logs[1..], decode)
  }

  /** The account in the first such item; none exactly when there is no such item. */
  lemma MinerExactly(logs: seq<Log>, decode: string -> Option<Account>, a: Account)
    ensures GetBlockMiner(logs, decode) == Some(a) <==>
            exists i: nat :: FirstAuthor(logs, decode, i) && decode(logs[i].data) == Some(a)
  {
    hide GetBlockMiner;
  }

  // ----- balances -----

  datatype State = State(free: map<Account, nat>, issuance: nat)

  function Balance(s: State, a: Account): nat {
    if a in s.free then s.free[a] else 0
  }

  function Credit(s: State, a: Account, amount: nat): State {
    if amount == 0 then s else s.(free := s.free[a := Balance(s, a) + amount])
  }

  /** A fee paid by an extrinsic; if the payer cannot pay, the extrinsic is rejected. */
  datatype Fee = Fee(payer: Account, amount: nat)

  predicate CanPay(s: State, fee: Fee) {
    fee.amount <= Balance(s, fee.payer)
  }

  /** Withdraw the fee and hand it to `on_nonzero_unbalanced`; an imbalance nobody takes is burnt. */
  function Charge(s: State, author: Option<Account>, fee: Fee): State {
    if !CanPay(s, fee) || fee.amount == 0 then s
    else
      var s' := s.(free := s.free[fee.payer := Balance(s, fee.payer) - fee.amount]);
      match author
      case Some(a) => Credit(s', a, fee.amount)
      case None => s'.(issuance := if fee.amount <= s.issuance then s.issuance - fee.amount else 0)
  }

  function ChargeAll(s: State, author: Option<Account>, fees: seq<Fee>): State
    decreases |fees|
  {
    if fees == [] then s else ChargeAll(Charge(s, author, fees[0]), author, fees[1..])
  }

  function Reward(s: State, author: Option<Account>): State {
    match author
    case Some(a) =>
      if s.issuance < MAX_TOKENS then
        var reward := (MAX_TOKENS - s.issuance) / 1000;
        Credit(s, a, reward).(issuance := s.issuance + reward)
      else s
    case None => s
  }

  datatype Block = Block(author: Option<Account>, fees: seq<Fee>)

  function BlockStep(s: State, b: Block): State {
    Reward(ChargeAll(s, b.author, b.fees), b.author)
  }

  function Run(s: State, blocks: seq<Block>): State
    decreases |blocks|
  {
    if blocks == [] then s else Run(BlockStep(s, blocks[0]), blocks[1..])
  }

  // ----- conservation -----

  ghost function Sum(m: map<Account, nat>): nat
    decreases |m|
  {
    if m == map[] then 0
    else
      var a :| a in m;
      assert (m - {a}).Keys == m.Keys - {a};
      m[a] + Sum(m - {a})
  }

  lemma {:induction false} SumRemove(m: map<Account, nat>, k: Account)
    requires k in m
    ensures Sum(m) == m[k] + Sum(m - {k})
    decreases |m|
  {
    assert m != map[];
    var a :| a in m && Sum(m) == m[a] + Sum(m - {a});
    if a != k {
      assert (m - {a}).Keys == m.Keys - {a} && (m - {k}).Keys == m.Keys - {k};
      SumRemove(m - {a}, k);
      SumRemove(m - {k}, a);
      assert m - {a} - {k} == m - {k} - {a};
    }
  }

  lemma SumUpdate(m: map<Account, nat>, k: Account, v: nat)
    ensures Sum(m[k := v]) == Sum(m) - (if k in m then m[k] else 0) + v
  {
    SumRemove(m[k := v], k);
    assert m[k := v] - {k} == m - {k};
    if k in m {
      SumRemove(m, k);
    } else {
      assert m - {k} == m;
    }
  }

  ghost predicate Sound(s: State) {
    Sum(s.free) == s.issuance <= MAX_TOKENS
  }

  lemma BalanceBound(s: State, a: Account)
    ensures Balance(s, a) <= Sum(s.free)
  {
    if a in s.free {
      SumRemove(s.free, a);
    }
  }

  lemma CreditSum(s: State, a: Account, amount: nat)
    ensures Sum(Credit(s, a, amount).free) == Sum(s.free) + amount
  {
    SumUpdate(s.free, a, Balance(s, a) + amount);
  }

  lemma ChargeSound(s: State, author: Option<Account>, fee: Fee)
    requires Sound(s)
    ensures Sound(Charge(s, author, fee))
    ensures Charge(s, author, fee).issuance ==
            if author.Some? || !CanPay(s, fee) then s.issuance else s.issuance - fee.amount
  {
    BalanceBound(s, fee.payer);
    if CanPay(s, fee) && fee.amount > 0 {
      SumUpdate(s.free, fee.payer, Balance(s, fee.payer) - fee.amount);
      if author.Some? {
        CreditSum(s.(free := s.free[fee.payer := Balance(s, fee.payer) - fee.amount]), author.value, fee.amount);
      }
    }
  }

  lemma {:induction false} ChargeAllSound(s: State, author: Option<Account>, fees: seq<Fee>)
    requires Sound(s)
    ensures Sound(ChargeAll(s, author, fees))
    ensures ChargeAll(s, author, fees).issuance ==
            if author.Some? then s.issuance else s.issuance - Collected(s, author, fees)
    decreases |fees|
  {
    hide Charge, Sound;
    if fees != [] {
      ChargeSound(s, author, fees[0]);
      ChargeAllSound(Charge(s, author, fees[0]), author, fees[1..]);
    }
  }

  lemma RewardSound(s: State, author: Option<Account>)
    requires Sound(s)
    ensures Sound(Reward(s, author))
    ensures Reward(s, author).issuance == s.issuance + if author.Some? then (MAX_TOKENS - s.issuance) / 1000 else 0
  {
    if author.Some? {
      CreditSum(s, author.value, (MAX_TOKENS - s.issuance) / 1000);
    }
  }

  /** Supply conservation over every run of blocks: total issuance stays the sum of all balances and never exceeds
      MAX_TOKENS (so no 128-bit sum ever saturates). */
  lemma {:induction false} SupplyConservation(s: State, blocks: seq<Block>)
    requires Sound(s)
    ensures Sound(Run(s, blocks))
    decreases |blocks|
  {
    hide Sound, ChargeAll, Reward;
    if blocks != [] {
      var b := blocks[0];
      ChargeAllSound(s, b.author, b.fees);
      RewardSound(ChargeAll(s, b.author, b.fees), b.author);
      SupplyConservation(BlockStep(s, b), blocks[1..]);
    }
  }

  // ----- what one block does -----

  /** One fee: taken from its payer if he has it, given to the author; without an author it leaves the supply. */
  lemma FeeEffect(s: State, author: Option<Account>, fee: Fee, a: Account)
    requires Sound(s)
    ensures var paid := if fee.amount <= Balance(s, fee.payer) then fee.amount else 0;
            var t := Charge(s, author, fee);
            Balance(t, a) ==
              Balance(s, a) - (if fee.payer == a then paid else 0) + (if author == Some(a) then paid else 0) &&
            t.issuance == s.issuance - (if author.None? then paid else 0)
  {
    hide Sound;
    ChargeBalance(s, author, fee, a);
    ChargeSound(s, author, fee);
  }

  /** The reward: with an author, a thousandth of what is missing to 10^18, rounded down, is minted for the author. */
  lemma RewardEffect(s: State, author: Option<Account>, a: Account)
    requires Sound(s)
    ensures var minted := if author.Some? then (1_000_000_000_000_000_000 - s.issuance) / 1000 else 0;
            Balance(Reward(s, author), a) == Balance(s, a) + (if author == Some(a) then minted else 0) &&
            Reward(s, author).issuance == s.issuance + minted
  {
    RewardBalance(s, author, a);
    RewardSound(s, author);
  }

  /** The fees a block collects: those whose payer can pay when their turn comes. */
  function Collected(s: State, author: Option<Account>, fees: seq<Fee>): nat
    decreases |fees|
  {
    if fees == [] then 0
    else (if CanPay(s, fees[0]) then fees[0].amount else 0) + Collected(Charge(s, author, fees[0]), author, fees[1..])
  }

  /** The part of them that one account pays. */
  function PaidBy(s: State, author: Option<Account>, fees: seq<Fee>, a: Account): nat
    decreases |fees|
  {
    if fees == [] then 0
    else (if CanPay(s, fees[0]) && fees[0].payer == a then fees[0].amount else 0) +
         PaidBy(Charge(s, author, fees[0]), author, fees[1..], a)
  }

  lemma ChargeBalance(s: State, author: Option<Account>, fee: Fee, a: Account)
    ensures Balance(Charge(s, author, fee), a) ==
            Balance(s, a) - (if CanPay(s, fee) && fee.payer == a then fee.amount else 0)
                          + (if CanPay(s, fee) && author == Some(a) then fee.amount else 0)
  {
  }

  lemma {:induction false} ChargeAllBalance(s: State, author: Option<Account>, fees: seq<Fee>, a: Account)
    ensures Balance(ChargeAll(s, author, fees), a) ==
            Balance(s, a) - PaidBy(s, author, fees, a) + (if author == Some(a) then Collected(s, author, fees) else 0)
    decreases |fees|
  {
    hide Charge;
    if fees != [] {
      ChargeBalance(s, author, fees[0], a);
      ChargeAllBalance(Charge(s, author, fees[0]), author, fees[1..], a);
    }
  }

  /** A block with an author moves every collected fee from its payer to the author and mints exactly a thousandth of
      the gap for the author; a block without one mints nothing and burns exactly the collected fees. */
  lemma BlockEffect(s: State, b: Block, a: Account)
    requires Sound(s)
    ensures var gain := if b.author.Some? then (MAX_TOKENS - s.issuance) / 1000 else 0;
            Balance(BlockStep(s, b), a) ==
              Balance(s, a) - PaidBy(s, b.author, b.fees, a) +
              (if b.author == Some(a) then Collected(s, b.author, b.fees) + gain else 0)
    ensures BlockStep(s, b).issuance ==
            if b.author.Some? then s.issuance + (MAX_TOKENS - s.issuance) / 1000
            else s.issuance - Collected(s, b.author, b.fees)
  {
    hide ChargeAll, Sound, Collected, PaidBy;
    ChargeAllBalance(s, b.author, b.fees, a);
    ChargeAllSound(s, b.author, b.fees);
    RewardSound(ChargeAll(s, b.author, b.fees), b.author);
    RewardBalance(ChargeAll(s, b.author, b.fees), b.author, a);
  }

  lemma RewardBalance(s: State, author: Option<Account>, a: Account)
    requires Sound(s)
    ensures Balance(Reward(s, author), a) ==
            Balance(s, a) + if author == Some(a) then (MAX_TOKENS - s.issuance) / 1000 else 0
  {
  }

  // ----- the geometric reward -----

  /** The gap to MAX_TOKENS after n rewarded blocks. */
  function Gap(g: nat, n: nat): nat {
    if n == 0 then g else Gap(g, n - 1) - Gap(g, n - 1) / 1000
  }

  function Pow(b: nat, n: nat): nat {
    if n == 0 then 1 else b * Pow(b, n - 1)
  }

  /** Over n blocks that all have an author, whatever their fees, the gap follows this recurrence. */
  lemma {:induction false} RunGap(s: State, blocks: seq<Block>)
    requires Sound(s) && forall b | b in blocks :: b.author.Some?
    ensures MAX_TOKENS - Run(s, blocks).issuance == Gap(MAX_TOKENS - s.issuance, |blocks|)
    decreases |blocks|
  {
    hide Sound, BlockStep;
    if blocks != [] {
      var b := blocks[0];
      assert b in blocks;
      BlockEffect(s, b, 0);
      BlockSound(s, b);
      RunGap(BlockStep(s, b), blocks[1..]);
      var g: nat := MAX_TOKENS - s.issuance;
      GapShift(g, |blocks| - 1);
    }
  }

  lemma BlockSound(s: State, b: Block)
    requires Sound(s)
    ensures Sound(BlockStep(s, b))
    ensures s.issuance <= MAX_TOKENS
  {
    hide ChargeAll, Reward, Sum;
    ChargeAllSound(s, b.author, b.fees);
    RewardSound(ChargeAll(s, b.author, b.fees), b.author);
  }

  lemma {:induction false} GapShift(g: nat, n: nat)
    ensures Gap(g - g / 1000, n) == Gap(g, n + 1)
  {
    if n > 0 {
      GapShift(g, n - 1);
    } else {
      assert Gap(g, 1) == Gap(g, 0) - Gap(g, 0) / 1000;
    }
  }

  lemma OneReward(g: nat)
    ensures 999 * g <= 1000 * (g - g / 1000)
    ensures 1000 * (g - g / 1000 - 999) <= 999 * (g - 999)
  {
  }

  lemma Scale(k: nat, a: int, b: int)
    requires a <= b
    ensures k * a <= k * b
  {
  }

  /** The gap shrinks geometrically with ratio 999/1000, up to an offset of 999. */
  lemma {:induction false} GeometricBounds(g: nat, n: nat)
    ensures Pow(999, n) * g <= Pow(1000, n) * Gap(g, n)
    ensures Pow(1000, n) * (Gap(g, n) - 999) <= Pow(999, n) * (g - 999)
  {
    if n > 0 {
      var h, a, b := Gap(g, n - 1), Pow(999, n - 1), Pow(1000, n - 1);
      var h' := Gap(g, n);
      GeometricBounds(g, n - 1);
      OneReward(h);
      LowerStep(a, b, g, h, h');
      UpperStep(a, b, g, h, h');
    }
  }

  lemma LowerStep(a: nat, b: nat, g: nat, h: nat, h': nat)
    requires a * g <= b * h && 999 * h <= 1000 * h'
    ensures (999 * a) * g <= (1000 * b) * h'
  {
    Scale(b, 999 * h, 1000 * h');
    assert (999 * a) * g == 999 * (a * g);
    assert b * (999 * h) == 999 * (b * h);
    assert b * (1000 * h') == (1000 * b) * h';
  }

  lemma UpperStep(a: nat, b: nat, g: nat, h: nat, h': nat)
    requires b * (h - 999) <= a * (g - 999) && 1000 * (h' - 999) <= 999 * (h - 999)
    ensures (1000 * b) * (h' - 999) <= (999 * a) * (g - 999)
  {
    Scale(b, 1000 * (h' - 999), 999 * (h - 999));
    assert b * (1000 * (h' - 999)) == (1000 * b) * (h' - 999);
    assert b * (999 * (h - 999)) == 999 * (b * (h - 999));
    assert (999 * a) * (g - 999) == 999 * (a * (g - 999));
  }

  /** One reward strictly lowers a gap of at least 1000, never below 999; a smaller gap stays for ever. */
  lemma {:induction false} GapMonotone(g: nat, n: nat)
    ensures g >= 999 ==> Gap(g, n) >= 999
    ensures Gap(g, n) >= 1000 ==> Gap(g, n + 1) < Gap(g, n)
    ensures Gap(g, n) <= 999 ==> Gap(g, n + 1) == Gap(g, n)
  {
    if n > 0 {
      GapMonotone(g, n - 1);
      OneReward(Gap(g, n - 1));
    }
  }

  lemma {:induction false} GapDescends(g: nat, n: nat)
    requires g >= 1000
    ensures Gap(g, n) == 999 || (Gap(g, n) >= 999 && Gap(g, n) + n <= g)
  {
    if n > 0 {
      GapDescends(g, n - 1);
      GapMonotone(g, n - 1);
      GapMonotone(g, n);
    }
  }

  lemma {:induction false} GapStays(g: nat, m: nat, n: nat)
    requires m <= n && Gap(g, m) <= 999
    ensures Gap(g, n) == Gap(g, m)
  {
    if m < n {
      GapStays(g, m, n - 1);
      GapMonotone(g, n - 1);
    }
  }

  /** The exact limit: from a gap of at least 1000 the gap is exactly 999 from some block on. */
  lemma ExactLimit(g: nat) returns (n: nat)
    requires g >= 1000
    ensures 0 < n <= g - 999
    ensures Gap(g, n) == 999 && forall m: nat | m >= n :: Gap(g, m) == 999
    ensures forall m: nat | m < n :: Gap(g, m + 1) < Gap(g, m)
  {
    GapDescends(g, g - 999);
    n := FirstAt(g, g - 999);
    forall m: nat | m >= n
      ensures Gap(g, m) == 999
    {
      GapStays(g, n, m);
    }
    forall m: nat | m < n
      ensures Gap(g, m + 1) < Gap(g, m)
    {
      GapMonotone(g, m);
    }
  }

  lemma FirstAt(g: nat, bound: nat) returns (n: nat)
    requires g >= 1000 && Gap(g, bound) == 999
    ensures n <= bound && Gap(g, n) == 999 && forall m: nat | m < n :: Gap(g, m) >= 1000
  {
    n := 0;
    while Gap(g, n) != 999
      invariant n <= bound && forall m: nat | m < n :: Gap(g, m) >= 1000
      decreases bound - n
    {
      GapMonotone(g, n);
      assert n < bound;
      n := n + 1;
    }
  }

  // ----- the ledger, updated in place -----

  class Balances {
    var free: map<Account, nat>
    var issuance: nat

    ghost function Snapshot(): State
      reads this
    {
      State(free, issuance)
    }

    constructor (genesis: State)
      ensures Snapshot() == genesis
    {
      free, issuance := genesis.free, genesis.issuance;
    }

    /** `resolve_creating` / the balance side of `deposit_creating`. */
    method Resolve(a: Account, amount: nat)
      modifies this`free
      ensures Snapshot() == Credit(old(Snapshot()), a, amount)
    {
      if amount > 0 {
        free := free[a := (if a in free then free[a] else 0) + amount];
      }
    }

    /** Withdraws a fee and hands the imbalance to `on_nonzero_unbalanced`, which credits the author or drops it. */
    method ChargeFee(author: Option<Account>, fee: Fee)
      modifies this
      ensures Snapshot() == Charge(old(Snapshot()), author, fee)
    {
      var balance := if fee.payer in free then free[fee.payer] else 0;
      if fee.amount <= balance && fee.amount > 0 {
        free := free[fee.payer := balance - fee.amount];
        if author.Some? {
          Resolve(author.value, fee.amount);
        } else {
          issuance := if fee.amount <= issuance then issuance - fee.amount else 0;
        }
      }
    }

    method InflationaryReward(author: Option<Account>)
      modifies this
      ensures Snapshot() == Reward(old(Snapshot()), author)
    {
      if author.Some? && issuance < MAX_TOKENS {
        var reward := (MAX_TOKENS - issuance) / 1000;
        Resolve(author.value, reward);
        issuance := issuance + reward;
      }
    }

    /** One block: the fees of its extrinsics, then the reward when it is finalized. */
    method ExecuteBlock(logs: seq<Log>, decode: string -> Option<Account>, fees: seq<Fee>)
      modifies this
      ensures Snapshot() == BlockStep(old(Snapshot()), Block(GetBlockMiner(logs, decode), fees))
      ensures forall i: nat | FirstAuthor(logs, decode, i) ::
                Snapshot() == BlockStep(old(Snapshot()), Block(decode(logs[i].data), fees))
      ensures (forall i: nat :: !FirstAuthor(logs, decode, i)) ==>
                Snapshot() == BlockStep(old(Snapshot()), Block(None, fees))
    {
      hide Charge, Reward, FirstAuthor;
      var author := GetBlockMiner(logs, decode);
      var i := 0;
      while i < |fees|
        invariant 0 <= i <= |fees|
        invariant ChargeAll(Snapshot(), author, fees[i..]) == ChargeAll(old(Snapshot()), author, fees)
      {
        assert fees[i..][1..] == fees[i + 1..];
        ChargeFee(author, fees[i]);
        i := i + 1;
      }
      InflationaryReward(author);
    }
  }
}
