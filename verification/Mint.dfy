/**
 The mint message: its checks, its effect on the bank, and the supply over whole runs.
 */
module Mint {
  import opened Common
  import opened Calendar
  import opened Halving
  import opened Distribution

  type Account = string

  /** Bech32 parsing and printing, and the distro module account if it exists. */
  datatype Env = Env(parse: string -> Option<Account>, show: Account -> string, moduleAccount: Option<Account>)

  /** The parameters with their numbers and dates read; None where the text does not parse. */
  datatype MintParams = MintParams(
    mintingAddress: string, receivingAddress: string, maxSupply: Option<int>, startDate: Option<Date>, months: nat)
  {
    /** `Params.Validate`, for text that the integer, date and uint64 readers accept. */
    ghost predicate Valid(env: Env)
    {
      && mintingAddress != "" && env.parse(mintingAddress).Some?
      && receivingAddress != "" && env.parse(receivingAddress).Some?
      && maxSupply.Some? && 0 < maxSupply.value < INT_LIMIT
      && startDate.Some? && startDate.value.Valid()
      && 0 < months < 0x1_0000_0000_0000_0000
    }
  }

  datatype MsgMint = MsgMint(amount: Option<int>, minter: string)

  datatype Bank = Bank(supply: int, balances: map<Account, int>)
  {
    function Balance(a: Account): (n: int)
    {
      if a in balances then balances[a] else 0
    }

    function Credit(a: Account, n: int): (b: Bank)
    {
      Bank(supply, balances[a := Balance(a) + n])
    }
  }

  datatype Verdict = Minted | Rejected | Panicked

  // ----- the checks

  /** `MsgMint.Validate`: the amount, if the message is well formed. */
  function ValidateMsg(env: Env, msg: MsgMint): (r: Option<int>)
    ensures r.Some? ==> env.parse(msg.minter).Some?
  {
    if msg.amount.None? || msg.amount.value <= 0 then None
    else if msg.minter == "" || env.parse(msg.minter).None? then None
    else msg.amount
  }

  /** `newHalvingSchedule`; a negative maximum supply is refused before it is called. */
  function NewSchedule(p: MintParams): (r: Option<Schedule>)
  {
    if p.startDate.None? || p.maxSupply.None? || p.maxSupply.value < 0 || p.months == 0 then None
    else Some(Schedule(p.startDate.value, p.months, p.maxSupply.value))
  }

  /** `validateMintingLimits`. */
  function ValidateLimits(p: MintParams, day: int, newSupply: int): (r: Outcome<()>)
    ensures !r.Hang?
  {
    match NewSchedule(p)
    case None => Err
    case Some(h) =>
      var limit :- h.TotalDistributableAt(day);
      if newSupply > limit then Err else Ok(())
  }

  /** Every check of `Mint` before it changes anything: the amount to mint, an error, or a panic. */
  function Check(env: Env, p: MintParams, day: int, supply: int, msg: MsgMint): (r: Outcome<int>)
    ensures !r.Hang?
  {
    match ValidateMsg(env, msg)
    case None => Err
    case Some(amount) =>
      if p.mintingAddress != env.show(env.parse(msg.minter).value) then Err
      else if supply < 0 || p.maxSupply.None? then Err
      else if supply + amount >= INT_LIMIT then Panic
      else if supply + amount > p.maxSupply.value then Err
      else
        var _ :- ValidateLimits(p, day, supply + amount);
        if env.moduleAccount.None? then Err else Ok(amount)
  }

  /** The same without the comparison against the maximum supply. */
  function CheckLimitOnly(env: Env, p: MintParams, day: int, supply: int, msg: MsgMint): (r: Outcome<int>)
    ensures !r.Hang?
  {
    match ValidateMsg(env, msg)
    case None => Err
    case Some(amount) =>
      if p.mintingAddress != env.show(env.parse(msg.minter).value) then Err
      else if supply < 0 || p.maxSupply.None? then Err
      else if supply + amount >= INT_LIMIT then Panic
      else
        var _ :- ValidateLimits(p, day, supply + amount);
        if env.moduleAccount.None? then Err else Ok(amount)
  }

  /** `Mint` as a whole. A receiving address that does not parse is noticed only after the coins exist. */
  function MintSpec(env: Env, p: MintParams, day: int, b: Bank, msg: MsgMint): (r: (Verdict, Bank))
  {
    match Check(env, p, day, b.supply, msg)
    case Err => (Rejected, b)
    case Panic => (Panicked, b)
    case Ok(amount) =>
      var made := Bank(b.supply + amount, b.balances).Credit(env.moduleAccount.value, amount);
      match env.parse(p.receivingAddress)
      case None => (Rejected, made)
      case Some(to) => (Minted, made.Credit(env.moduleAccount.value, -amount).Credit(to, amount))
  }

  /** The keeper, whose bank the message server changes. */
  class Keeper {
    const env: Env
    var params: MintParams
    var bank: Bank

    constructor (env: Env, params: MintParams)
      ensures this.env == env && this.params == params && bank == Bank(0, map[])
    {
      this.env, this.params, this.bank := env, params, Bank(0, map[]);
    }

    /** The bank module's `MintCoins`: what is created is held, by the module account and nobody else. */
    method MintCoins(amount: int)
      requires env.moduleAccount.Some?
      modifies this`bank
      ensures bank.supply == old(bank.supply) + amount
      ensures bank.balances.Keys == old(bank.balances.Keys) + {env.moduleAccount.value}
      ensures forall a :: bank.Balance(a) - old(bank.Balance(a)) == if a == env.moduleAccount.value then amount else 0
      ensures bank.supply - Total(bank.balances) == old(bank.supply - Total(bank.balances))
    {
      bank := Bank(bank.supply + amount, bank.balances);
      TotalCredit(bank, env.moduleAccount.value, amount);
      bank := bank.Credit(env.moduleAccount.value, amount);
    }

    /** `depositCoins`. */
    method DepositCoins(toAddress: string, amount: int) returns (ok: bool)
      requires env.moduleAccount.Some?
      modifies this`bank
      ensures ok <==> env.parse(toAddress).Some?
      ensures bank == if ok then
                        old(bank).Credit(env.moduleAccount.value, -amount).Credit(env.parse(toAddress).value, amount)
                      else old(bank)
    {
      var acct := env.parse(toAddress);
      if acct.None? { return false; }
      bank := bank.Credit(env.moduleAccount.value, -amount);
      bank := bank.Credit(acct.value, amount);
      return true;
    }

    /** `Mint`. */
    method Mint(day: int, msg: MsgMint) returns (v: Verdict)
      modifies this`bank
      ensures (v, bank) == MintSpec(env, params, day, old(bank), msg)
    {
      hide Schedule.TotalDistributableAt, ValidateMsg;
      var amount := ValidateMsg(env, msg);
      if amount.None? { return Rejected; }
      if params.mintingAddress != env.show(env.parse(msg.minter).value) { return Rejected; }
      if bank.supply < 0 { return Rejected; }
      if params.maxSupply.None? { return Rejected; }
      if bank.supply + amount.value >= INT_LIMIT { return Panicked; }
      if bank.supply + amount.value > params.maxSupply.value { return Rejected; }
      var schedule := NewSchedule(params);
      if schedule.None? { return Rejected; }
      var limit := ComputeTotalDistributableAt(schedule.value, day);
      if limit.Err? { return Rejected; }
      if limit.Panic? { return Panicked; }
      if bank.supply + amount.value > limit.value { return Rejected; }
      if env.moduleAccount.None? { return Rejected; }
      MintCoins(amount.value);
      ghost var made := Bank(old(bank.supply) + amount.value, old(bank.balances));
      SameBank(bank, made.Credit(env.moduleAccount.value, amount.value));
      var ok := DepositCoins(params.receivingAddress, amount.value);
      if !ok { return Rejected; }
      return Minted;
    }
  }

  lemma SameBank(b: Bank, c: Bank)
    requires b.supply == c.supply && b.balances.Keys == c.balances.Keys && forall a :: b.Balance(a) == c.Balance(a)
    ensures b == c
  {
    forall a | a in b.balances
      ensures b.balances[a] == c.balances[a]
    {
      assert b.Balance(a) == c.Balance(a);
    }
    assert b.balances == c.balances;
  }

  // ----- one message

  function ScheduleOf(p: MintParams): (h: Schedule)
    requires p.startDate.Some? && p.maxSupply.Some? && p.maxSupply.value >= 0
  {
    Schedule(p.startDate.value, p.months, p.maxSupply.value)
  }

  /** An accepted mint adds exactly its amount to the supply and to the receiver, and touches no other balance. */
  lemma MintEffect(env: Env, p: MintParams, day: int, b: Bank, msg: MsgMint)
    requires MintSpec(env, p, day, b, msg).0.Minted?
    ensures var b', amount := MintSpec(env, p, day, b, msg).1, msg.amount.value;
            var to := env.parse(p.receivingAddress).value;
            && amount > 0
            && b'.supply == b.supply + amount
            && b'.Balance(to) == b.Balance(to) + amount
            && forall a :: a != to ==> b'.Balance(a) == b.Balance(a)
  {
    hide Check;
    CheckedAmount(env, p, day, b.supply, msg);
  }

  lemma CheckedAmount(env: Env, p: MintParams, day: int, supply: int, msg: MsgMint)
    requires Check(env, p, day, supply, msg).Ok?
    ensures msg.amount == Some(Check(env, p, day, supply, msg).value) && msg.amount.value > 0
    ensures env.moduleAccount.Some? && supply >= 0
  {
    hide ValidateLimits;
  }

  /** With valid parameters a mint that is not accepted has changed nothing, even before any rollback. */
  lemma RefusalChangesNothing(env: Env, p: MintParams, day: int, b: Bank, msg: MsgMint)
    requires p.Valid(env)
    ensures !MintSpec(env, p, day, b, msg).0.Minted? ==> MintSpec(env, p, day, b, msg).1 == b
  {
    hide Check;
    if Check(env, p, day, b.supply, msg).Ok? {
      CheckedAmount(env, p, day, b.supply, msg);
    }
  }

  lemma ValidSchedule(env: Env, p: MintParams)
    requires p.Valid(env)
    ensures ScheduleOf(p).Valid() && NewSchedule(p) == Some(ScheduleOf(p))
  {
  }

  /** An accepted mint stays within the cap of its day. */
  lemma MintWithinCap(env: Env, p: MintParams, day: int, b: Bank, msg: MsgMint)
    requires p.Valid(env) && MintSpec(env, p, day, b, msg).0.Minted?
    ensures 0 <= b.supply < MintSpec(env, p, day, b, msg).1.supply <= Cap(ScheduleOf(p), day)
  {
    hide Cap, Schedule.TotalDistributableAt;
    ValidSchedule(env, p);
    CheckedAmount(env, p, day, b.supply, msg);
    LimitIsCap(ScheduleOf(p), day);
  }

  /**
   The comparison with the maximum supply never decides whether a mint is accepted, and on days
   that have a limit it does not change the outcome at all.
   */
  lemma MaxSupplyCheckIsRedundant(env: Env, p: MintParams, day: int, supply: int, msg: MsgMint)
    requires p.Valid(env) && ScheduleOf(p).Regular()
    ensures var full, limitOnly := Check(env, p, day, supply, msg), CheckLimitOnly(env, p, day, supply, msg);
            && (full.Ok? <==> limitOnly.Ok?)
            && (full.Ok? || !ScheduleOf(p).TotalDistributableAt(day).Panic? ==> full == limitOnly)
  {
    hide Cap, Schedule.TotalDistributableAt;
    ValidSchedule(env, p);
    CapBelowMaxSupply(ScheduleOf(p), day);
    if ScheduleOf(p).TotalDistributableAt(day).Ok? {
      LimitIsCap(ScheduleOf(p), day);
    }
  }

  /**
   A mint is accepted exactly when its amount is a positive number, its minter an address that reads as
   the minting address, the module account exists, the day has a limit, and the new supply is within it.
   */
  lemma AcceptedExactly(env: Env, p: MintParams, day: int, b: Bank, msg: MsgMint)
    requires p.Valid(env) && ScheduleOf(p).Regular()
    ensures MintSpec(env, p, day, b, msg).0.Minted? <==>
            && msg.amount.Some? && msg.amount.value > 0
            && msg.minter != "" && env.parse(msg.minter).Some?
            && p.mintingAddress == env.show(env.parse(msg.minter).value)
            && env.moduleAccount.Some? && b.supply >= 0
            && Funded(ScheduleOf(p), day) && b.supply + msg.amount.value <= Cap(ScheduleOf(p), day)
  {
    hide Cap, Funded, Schedule.TotalDistributableAt, Schedule.Regular;
    var h := ScheduleOf(p);
    ValidSchedule(env, p);
    LimitDefinedExactly(h, day);
    if Funded(h, day) {
      LimitIsCap(h, day);
    }
    CapBelowMaxSupply(h, day);
  }

  /**
   It panics exactly when such a message comes and the sum exceeds 256 bits, or is within the maximum
   supply on a day that has begun but has no limit.
   */
  lemma PanicsExactly(env: Env, p: MintParams, day: int, b: Bank, msg: MsgMint)
    requires p.Valid(env) && ScheduleOf(p).Regular()
    ensures MintSpec(env, p, day, b, msg).0.Panicked? <==>
            && msg.amount.Some? && msg.amount.value > 0
            && msg.minter != "" && env.parse(msg.minter).Some?
            && p.mintingAddress == env.show(env.parse(msg.minter).value)
            && b.supply >= 0
            && var sum := b.supply + msg.amount.value;
               || sum >= 0x1_0000000000000000_0000000000000000_0000000000000000_0000000000000000
               || (&& sum <= p.maxSupply.value && !Funded(ScheduleOf(p), day)
                   && ScheduleOf(p).start.DayNumber() <= day)
  {
    hide Cap, Funded, Schedule.TotalDistributableAt, Schedule.Regular, FirstOfMonth;
    ValidSchedule(env, p);
    LimitDefinedExactly(ScheduleOf(p), day);
  }

  // ----- sums of balances

  ghost function Total(m: map<Account, int>): (sum: int)
    decreases |m|
  {
    if m == map[] then 0 else
    var k :| k in m;
    m[k] + Total(m - {k})
  }

  lemma {:induction false} TotalSplit(m: map<Account, int>, k: Account)
    requires k in m
    ensures Total(m) == m[k] + Total(m - {k})
    decreases |m|
  {
    var k0 :| k0 in m && Total(m) == m[k0] + Total(m - {k0});
    if k != k0 {
      TotalSplit(m - {k0}, k);
      TotalSplit(m - {k}, k0);
      assert m - {k0} - {k} == m - {k} - {k0};
    }
  }

  lemma TotalCredit(b: Bank, a: Account, n: int)
    ensures Total(b.Credit(a, n).balances) == Total(b.balances) + n
  {
    var m, m' := b.balances, b.Credit(a, n).balances;
    TotalSplit(m', a);
    assert m' - {a} == m - {a};
    if a in m {
      TotalSplit(m, a);
    } else {
      assert m - {a} == m;
    }
  }

  lemma {:induction false} TotalNonnegative(m: map<Account, int>)
    requires forall a :: a in m ==> m[a] >= 0
    ensures Total(m) >= 0
    decreases |m|
  {
    if m == map[] {
    } else {
      var k :| k in m;
      TotalSplit(m, k);
      TotalNonnegative(m - {k});
    }
  }

  /** Nobody holds more than all accounts together. */
  lemma ShareOfTotal(b: Bank, a: Account)
    requires forall k :: k in b.balances ==> b.balances[k] >= 0
    ensures b.Balance(a) <= Total(b.balances)
  {
    TotalNonnegative(b.balances);
    if a in b.balances {
      TotalSplit(b.balances, a);
      TotalNonnegative(b.balances - {a});
    }
  }

  // ----- whole runs

  datatype Event =
    | MintMsg(msg: MsgMint)
    | NextBlock(days: nat)
    | Transfer(src: Account, dst: Account, amount: int)
    | Burn(owner: Account, amount: int)

  datatype World = World(bank: Bank, day: int)

  /** One event; a transaction that fails is rolled back, and nobody spends what they do not have. */
  function Step(env: Env, p: MintParams, w: World, e: Event): (w': World)
  {
    match e
    case MintMsg(msg) =>
      var (v, b) := MintSpec(env, p, w.day, w.bank, msg);
      if v.Minted? then World(b, w.day) else w
    case NextBlock(days) => World(w.bank, w.day + days)
    case Transfer(from, to, amount) =>
      if amount < 0 || amount > w.bank.Balance(from) then w
      else World(w.bank.Credit(from, -amount).Credit(to, amount), w.day)
    case Burn(owner, amount) =>
      if amount < 0 || amount > w.bank.Balance(owner) then w
      else World(Bank(w.bank.supply - amount, w.bank.balances).Credit(owner, -amount), w.day)
  }

  function Run(env: Env, p: MintParams, w: World, es: seq<Event>): (w': World)
  {
    if es == [] then w else Step(env, p, Run(env, p, w, es[..|es| - 1]), es[|es| - 1])
  }

  /** The supply is within the cap of the day and is what all accounts hold together; nobody is in debt. */
  ghost predicate Sound(p: MintParams, w: World)
    requires p.startDate.Some? && p.maxSupply.Some? && p.maxSupply.value >= 0
  {
    && 0 <= w.bank.supply <= Cap(ScheduleOf(p), w.day)
    && Total(w.bank.balances) == w.bank.supply
    && forall a :: a in w.bank.balances ==> w.bank.balances[a] >= 0
  }

  lemma MintKeepsSound(env: Env, p: MintParams, w: World, msg: MsgMint)
    requires p.Valid(env) && ScheduleOf(p).Regular() && Sound(p, w)
    requires MintSpec(env, p, w.day, w.bank, msg).0.Minted?
    ensures Sound(p, World(MintSpec(env, p, w.day, w.bank, msg).1, w.day))
  {
    hide Cap, Total, Check;
    MintWithinCap(env, p, w.day, w.bank, msg);
    CheckedAmount(env, p, w.day, w.bank.supply, msg);
    var amount := msg.amount.value;
    var b1 := Bank(w.bank.supply + amount, w.bank.balances);
    TotalCredit(b1, env.moduleAccount.value, amount);
    var b2 := b1.Credit(env.moduleAccount.value, amount);
    TotalCredit(b2, env.moduleAccount.value, -amount);
    TotalCredit(b2.Credit(env.moduleAccount.value, -amount), env.parse(p.receivingAddress).value, amount);
  }

  lemma StepKeepsSound(env: Env, p: MintParams, w: World, e: Event)
    requires p.Valid(env) && ScheduleOf(p).Regular() && Sound(p, w)
    ensures Sound(p, Step(env, p, w, e))
  {
    hide Cap, Total, MintSpec;
    match e
    case MintMsg(msg) =>
      if MintSpec(env, p, w.day, w.bank, msg).0.Minted? {
        MintKeepsSound(env, p, w, msg);
      }
    case NextBlock(days) =>
      CapMonotone(ScheduleOf(p), w.day, w.day + days);
    case Transfer(from, to, amount) =>
      TotalCredit(w.bank, from, -amount);
      TotalCredit(w.bank.Credit(from, -amount), to, amount);
    case Burn(owner, amount) =>
      ShareOfTotal(w.bank, owner);
      TotalCredit(Bank(w.bank.supply - amount, w.bank.balances), owner, -amount);
  }

  /**
   Every run from an empty bank, with mints, transfers, burns and passing days in any order, keeps
   the supply within the schedule and strictly below the maximum, and equal to the sum of all balances.
   */
  lemma {:induction false} MintSafety(env: Env, p: MintParams, day: int, es: seq<Event>)
    requires p.Valid(env) && ScheduleOf(p).Regular()
    ensures Sound(p, Run(env, p, World(Bank(0, map[]), day), es))
    ensures Run(env, p, World(Bank(0, map[]), day), es).bank.supply < p.maxSupply.value
  {
    hide Cap, Step;
    var w := World(Bank(0, map[]), day);
    if es == [] {
    } else {
      MintSafety(env, p, day, es[..|es| - 1]);
      StepKeepsSound(env, p, Run(env, p, w, es[..|es| - 1]), es[|es| - 1]);
    }
    CapBelowMaxSupply(ScheduleOf(p), Run(env, p, w, es).day);
  }
}
