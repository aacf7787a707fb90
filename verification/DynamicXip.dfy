/** Dynamic xips (src/dynamic_xip_manager.cc): a wrapping 32-bit counter is split
    into four fields by masks and shifts, and clients are kept under the result. */
module DynamicXips {
  import opened Options

  // ---------------------------------------------------------------- the macros

  function ProcessId(id: bv32): bv32 { (id & 0xF00000) >> 16 }

  function RouterId(id: bv32): bv32 { (id & 0x0F0000) >> 16 }

  function SwitchId(id: bv32): bv32 { (id & 0xFF00) >> 8 }

  function LocalId(id: bv32): bv32 { id & 0xFF }

  /** A xip; `rest` stands for the bytes DispatchDynamicXip leaves alone. */
  datatype Xip = Xip(dynamic: bool, processId: bv32, routerId: bv32, switchId: bv32, localId: bv32, rest: seq<bv8>)

  /** The local xip with the fields of `id` written over it. */
  function Stamped(local: Xip, id: bv32): Xip {
    Xip(true, ProcessId(id), RouterId(id), SwitchId(id), LocalId(id), local.rest)
  }

  const LOW: bv32 := 0xFFFFFF

  /** How many dispatches until the fields repeat. */
  const WINDOW: nat := 0x1000000

  /** Every field fits a byte, and together they give back the low 24 bits, even
      though the process and router fields are shifted by the same 16. */
  lemma FieldsRecombine(id: bv32)
    ensures ProcessId(id) <= 0xFF && RouterId(id) <= 0xFF && SwitchId(id) <= 0xFF && LocalId(id) <= 0xFF
    ensures ((ProcessId(id) | RouterId(id)) << 16) | (SwitchId(id) << 8) | LocalId(id) == id & LOW
    ensures ProcessId(id) & RouterId(id) == 0
  {
  }

  lemma LowBitsTellFields(x: bv32, y: bv32)
    requires x & 0xFFFFFF == y & 0xFFFFFF
    ensures ProcessId(x) == ProcessId(y) && RouterId(x) == RouterId(y)
    ensures SwitchId(x) == SwitchId(y) && LocalId(x) == LocalId(y)
  {
  }

  lemma FieldsTellLowBits(x: bv32, y: bv32)
    requires ProcessId(x) == ProcessId(y) && RouterId(x) == RouterId(y)
    requires SwitchId(x) == SwitchId(y) && LocalId(x) == LocalId(y)
    ensures x & 0xFFFFFF == y & 0xFFFFFF
  {
  }

  // ---------------------------------------------------------------- the counter as a number

  function Half(x: bv32): bv32 { x >> 1 }

  function Next(x: bv32): bv32 { x + 1 }

  predicate Odd(x: bv32) { x & 1 == 1 }

  /** The number a word stands for, bit by bit. */
  function Number(x: bv32): nat
    decreases x
  {
    if x == 0 then 0 else 2 * Number(Half(x)) + (if Odd(x) then 1 else 0)
  }

  lemma NumberHalf(x: bv32)
    ensures Number(x) == 2 * Number(Half(x)) + (if Odd(x) then 1 else 0)
  {
  }

  lemma NextHalf(x: bv32)
    requires x != 0xFFFFFFFF
    ensures Half(Next(x)) == if Odd(x) then Next(Half(x)) else Half(x)
    ensures Odd(Next(x)) == !Odd(x)
    ensures Half(x) != 0xFFFFFFFF
  {
  }

  lemma {:induction false} NumberOfNext(x: bv32)
    requires x != 0xFFFFFFFF
    ensures Number(Next(x)) == Number(x) + 1
    decreases Number(x)
  {
    hide Number, Next, Half, Odd;
    NumberHalf(x);
    NumberHalf(Next(x));
    NextHalf(x);
    if Odd(x) {
      NumberOfNext(Half(x));
    }
  }

  lemma HalvesTell(x: bv32, y: bv32)
    requires Half(x) == Half(y) && Odd(x) == Odd(y)
    ensures x == y
  {
  }

  lemma {:induction false} NumberPositive(x: bv32)
    requires x != 0
    ensures Number(x) > 0
    decreases x
  {
    if !Odd(x) {
      NumberPositive(Half(x));
    }
  }

  lemma {:induction false} NumberInjective(x: bv32, y: bv32)
    requires Number(x) == Number(y)
    ensures x == y
    decreases Number(x)
  {
    hide Number, Half, Odd;
    if x == 0 || y == 0 {
      NumberOfZero();
      if x != 0 { NumberPositive(x); }
      if y != 0 { NumberPositive(y); }
    } else {
      NumberPositive(x);
      NumberHalf(x);
      NumberHalf(y);
      NumberInjective(Half(x), Half(y));
      HalvesTell(x, y);
    }
  }

  lemma HalvesCompare(x: bv32, y: bv32)
    requires x <= y
    ensures Half(x) <= Half(y)
    ensures Half(x) == Half(y) && Odd(x) ==> Odd(y)
  {
  }

  lemma {:induction false} NumberMonotone(x: bv32, y: bv32)
    requires x <= y
    ensures Number(x) <= Number(y)
    decreases Number(x)
  {
    hide Number, Half, Odd;
    if x == 0 {
      NumberOfZero();
    } else {
      NumberPositive(x);
      NumberHalf(x);
      NumberHalf(y);
      HalvesCompare(x, y);
      NumberMonotone(Half(x), Half(y));
      if Half(x) != Half(y) && Number(Half(x)) == Number(Half(y)) {
        NumberInjective(Half(x), Half(y));
      }
    }
  }

  lemma NumberOfZero()
    ensures Number(0) == 0
  {
  }

  // ---------------------------------------------------------------- the low bits

  function Low(x: bv32): bv32 { x & 0xFFFFFF }

  lemma {:induction false} NumberOfOnes(x: bv32, y: bv32)
    requires y == (x << 8) | 0xFF && x <= 0xFFFFFF
    ensures Number(y) == 256 * Number(x) + 255
  {
    NumberOfFourOnes(x, (x << 4) | 0xF);
    NumberOfFourOnes((x << 4) | 0xF, y);
  }

  lemma NumberOfFourOnes(x: bv32, y: bv32)
    requires y == (x << 4) | 0xF && x <= 0xFFFFFFF
    ensures Number(y) == 16 * Number(x) + 15
  {
    FourHalves(x, y);
    hide Number, Half, Odd;
    NumberHalf(y);
    NumberHalf(Half(y));
    NumberHalf(Half(Half(y)));
    NumberHalf(Half(Half(Half(y))));
  }

  lemma FourHalves(x: bv32, y: bv32)
    requires y == (x << 4) | 0xF && x <= 0xFFFFFFF
    ensures Odd(y) && Odd(Half(y)) && Odd(Half(Half(y))) && Odd(Half(Half(Half(y))))
    ensures Half(Half(Half(Half(y)))) == x
  {
  }

  lemma NumberOfLow()
    ensures Number(0xFFFFFF) == WINDOW - 1
  {
    hide Number;
    NumberOfZero();
    NumberOfOnes(0, 0xFF);
    NumberOfOnes(0xFF, 0xFFFF);
    NumberOfOnes(0xFFFF, 0xFFFFFF);
  }

  lemma LowNext(x: bv32)
    ensures Low(Next(x)) == if Low(x) == 0xFFFFFF then 0 else Next(Low(x))
    ensures Low(x) <= 0xFFFFFF && Low(x) != 0xFFFFFFFF
  {
  }

  /** The low bits count modulo the window, also where the word itself wraps. */
  lemma LowCounts(x: bv32)
    ensures Number(Low(x)) < WINDOW
    ensures Number(Low(Next(x))) == (Number(Low(x)) + 1) % WINDOW
  {
    hide Number, Low, Next;
    NumberOfLow();
    NumberOfZero();
    LowNext(x);
    NumberMonotone(Low(x), 0xFFFFFF);
    if Low(x) != 0xFFFFFF {
      NumberOfNext(Low(x));
      if Number(Low(x)) == Number(0xFFFFFF) {
        NumberInjective(Low(x), 0xFFFFFF);
      }
    }
  }

  // ---------------------------------------------------------------- dispatching

  /** The counter after k dispatches; ++ wraps at 2^32. */
  function Counter(start: bv32, k: nat): bv32 {
    if k == 0 then start else Next(Counter(start, k - 1))
  }

  lemma {:induction false} CounterCounts(start: bv32, k: nat)
    ensures Number(Low(Counter(start, k))) == (Number(Low(start)) + k) % WINDOW
  {
    hide Number, Low, Next;
    if k == 0 {
      LowCounts(start);
    } else {
      CounterCounts(start, k - 1);
      LowCounts(Counter(start, k - 1));
      ModOfNext(Number(Low(start)) + k - 1);
    }
  }

  lemma ModOfNext(a: nat)
    ensures (a % WINDOW + 1) % WINDOW == (a + 1) % WINDOW
  {
  }

  lemma ModEqual(a: nat, i: nat, j: nat)
    ensures (a + i) % WINDOW == (a + j) % WINDOW <==> (i - j) % WINDOW == 0
  {
  }

  lemma StampsTellLow(a: Xip, b: Xip, x: bv32, y: bv32)
    ensures Stamped(a, x) == Stamped(b, y) <==> a.rest == b.rest && Low(x) == Low(y)
  {
    hide ProcessId, RouterId, SwitchId, LocalId;
    if Low(x) == Low(y) {
      LowBitsTellFields(x, y);
    }
    if Stamped(a, x) == Stamped(b, y) {
      FieldsTellLowBits(x, y);
    }
  }

  /** From any start and across the wrap of the counter, dispatches i and j on
      one local xip agree exactly when they are a multiple of 2^24 apart; on
      different local xips that differ outside the fields, never. */
  lemma DispatchesAgreeExactlyWhen(start: bv32, a: Xip, b: Xip, i: nat, j: nat)
    ensures Stamped(a, Counter(start, i)) == Stamped(b, Counter(start, j)) <==>
              a.rest == b.rest && (i - j) % WINDOW == 0
  {
    hide Number, Low, Next, Counter, Stamped;
    var x, y := Counter(start, i), Counter(start, j);
    StampsTellLow(a, b, x, y);
    CounterCounts(start, i);
    CounterCounts(start, j);
    ModEqual(Number(Low(start)), i, j);
    if Number(Low(x)) == Number(Low(y)) {
      NumberInjective(Low(x), Low(y));
    }
  }

  // ---------------------------------------------------------------- the fields as numbers

  function Shifted(x: bv32): bv32 { x >> 4 }

  function Nibble(x: bv32): bv32 { x & 0xF }

  lemma LowNibbleBits(x: bv32)
    ensures Odd(Nibble(x)) == Odd(x) && Odd(Half(Nibble(x))) == Odd(Half(x))
  {
  }

  lemma HighNibbleBits(x: bv32)
    ensures Odd(Half(Half(Nibble(x)))) == Odd(Half(Half(x)))
    ensures Odd(Half(Half(Half(Nibble(x))))) == Odd(Half(Half(Half(x))))
  {
  }

  lemma NibbleEnds(x: bv32)
    ensures Half(Half(Half(Half(Nibble(x))))) == 0
    ensures Half(Half(Half(Half(x)))) == Shifted(x)
  {
  }

  lemma FourHalvings(x: bv32)
    ensures Number(x) ==
            16 * Number(Half(Half(Half(Half(x))))) + 8 * (if Odd(Half(Half(Half(x)))) then 1 else 0)
            + 4 * (if Odd(Half(Half(x))) then 1 else 0) + 2 * (if Odd(Half(x)) then 1 else 0)
            + (if Odd(x) then 1 else 0)
  {
    hide Number, Half, Odd;
    NumberHalf(x);
    NumberHalf(Half(x));
    NumberHalf(Half(Half(x)));
    NumberHalf(Half(Half(Half(x))));
  }

  /** The lowest four bits are the remainder by 16, the others the quotient. */
  lemma NibbleIsRemainder(x: bv32)
    ensures Number(Nibble(x)) == Number(x) % 16 && Number(Shifted(x)) == Number(x) / 16
  {
    hide Number, Half, Odd, Nibble, Shifted;
    LowNibbleBits(x);
    HighNibbleBits(x);
    NibbleEnds(x);
    FourHalvings(x);
    FourHalvings(Nibble(x));
    NumberOfZero();
  }

  /** A number of two nibbles. */
  lemma TwoNibbles(x: bv32, high: bv32, low: bv32)
    requires Shifted(x) == Nibble(high) && Nibble(x) == Nibble(low)
    ensures Number(x) == 16 * (Number(high) % 16) + Number(low) % 16
  {
    hide Number, Nibble, Shifted;
    NibbleIsRemainder(x);
    NibbleIsRemainder(high);
    NibbleIsRemainder(low);
  }

  lemma LocalNibbles(id: bv32)
    ensures Shifted(LocalId(id)) == Nibble(Shifted(id)) && Nibble(LocalId(id)) == Nibble(id)
  {
  }

  lemma SwitchNibbles(id: bv32)
    ensures Shifted(SwitchId(id)) == Nibble(Shifted(Shifted(Shifted(id))))
    ensures Nibble(SwitchId(id)) == Nibble(Shifted(Shifted(id)))
  {
  }

  lemma RouterNibble(id: bv32)
    ensures RouterId(id) == Nibble(Shifted(Shifted(Shifted(Shifted(id)))))
  {
  }

  lemma ProcessNibbles(id: bv32)
    ensures Shifted(ProcessId(id)) == Nibble(Shifted(Shifted(Shifted(Shifted(Shifted(id))))))
    ensures Nibble(ProcessId(id)) == Nibble(0)
  {
  }

  /** Each field by arithmetic on the number of the id. */
  lemma FieldsAreDigits(id: bv32)
    ensures var n := Number(id);
            && Number(LocalId(id)) == n % 256
            && Number(SwitchId(id)) == n / 256 % 256
            && Number(RouterId(id)) == n / 65536 % 16
            && Number(ProcessId(id)) == 16 * (n / 1048576 % 16)
  {
    hide Number, Nibble, Shifted, LocalId, SwitchId, RouterId, ProcessId;
    var a := Shifted(id);
    var b := Shifted(a);
    var c := Shifted(b);
    var d := Shifted(c);
    var e := Shifted(d);
    NibbleIsRemainder(id);
    NibbleIsRemainder(a);
    NibbleIsRemainder(b);
    NibbleIsRemainder(c);
    NibbleIsRemainder(d);
    NumberOfZero();
    LocalNibbles(id);
    TwoNibbles(LocalId(id), a, id);
    SwitchNibbles(id);
    TwoNibbles(SwitchId(id), c, b);
    RouterNibble(id);
    ProcessNibbles(id);
    TwoNibbles(ProcessId(id), e, 0);
    Digits(Number(id), Number(a), Number(b), Number(c), Number(d), Number(e));
  }

  /** Dividing by 16 again and again. */
  lemma Digits(n: nat, a: nat, b: nat, c: nat, d: nat, e: nat)
    requires a == n / 16 && b == a / 16 && c == b / 16 && d == c / 16 && e == d / 16
    ensures 16 * (a % 16) + n % 16 == n % 256
    ensures 16 * (c % 16) + b % 16 == n / 256 % 256
    ensures d % 16 == n / 65536 % 16 && e % 16 == n / 1048576 % 16
  {
    assert b == n / 256;
    assert d == b / 256;
  }

  lemma NumberOfAll()
    ensures Number(0xFFFFFFFF) == 0xFFFF_FFFF
  {
    hide Number;
    NumberOfLow();
    NumberOfOnes(0xFFFFFF, 0xFFFFFFFF);
  }

  /** The counter counts modulo 2^32. */
  lemma {:induction false} CounterIsNumber(start: bv32, k: nat)
    ensures Number(start) < 0x1_0000_0000
    ensures Number(Counter(start, k)) == (Number(start) + k) % 0x1_0000_0000
  {
    hide Number, Next;
    NumberOfAll();
    NumberMonotone(start, 0xFFFFFFFF);
    if k == 0 {
    } else {
      CounterIsNumber(start, k - 1);
      var before := Counter(start, k - 1);
      if before == 0xFFFFFFFF {
        WrapsToZero();
        NumberOfZero();
      } else {
        NumberOfNext(before);
        NumberMonotone(Next(before), 0xFFFFFFFF);
      }
    }
  }

  lemma WrapsToZero()
    ensures Next(0xFFFFFFFF) == 0
  {
  }

  /** The xip of the k-th dispatch: a dynamic xip with the bytes of the local one
      around the digits of the counter. */
  lemma DispatchIsArithmetic(start: bv32, local: Xip, k: nat)
    ensures var xip := Stamped(local, Counter(start, k));
            var n := (Number(start) + k) % 0x1_0000_0000;
            && xip.dynamic && xip.rest == local.rest
            && Number(xip.localId) == n % 256 && Number(xip.switchId) == n / 256 % 256
            && Number(xip.routerId) == n / 65536 % 16 && Number(xip.processId) == 16 * (n / 1048576 % 16)
  {
    CounterIsNumber(start, k);
    hide Number, LocalId, SwitchId, RouterId, ProcessId, Counter;
    FieldsAreDigits(Counter(start, k));
  }

  // ---------------------------------------------------------------- clients under dispatched xips

  /** The clients present by dispatch, `live`, against the table by key: each
      client is found under the key of its own dispatch, and nothing else is. */
  ghost predicate Mirrors<K, C>(keys: seq<K>, live: map<nat, C>, table: map<K, C>) {
    && (forall k :: k in live ==> k < |keys|)
    && (forall k :: k in live ==> keys[k] in table && table[keys[k]] == live[k])
    && (forall j, k :: j in live && k in live && keys[j] == keys[k] ==> j == k)
    && (forall x :: x in table ==> exists k :: k in live && keys[k] == x)
  }

  lemma MirrorsAfterAdd<K, C>(keys: seq<K>, live: map<nat, C>, table: map<K, C>, k: nat, c: C)
    requires Mirrors(keys, live, table) && k < |keys|
    requires forall j :: j in live && keys[j] == keys[k] ==> j == k
    ensures Mirrors(keys, live[k := c], table[keys[k] := c])
  {
    var live', table' := live[k := c], table[keys[k] := c];
    forall x | x in table' ensures exists j :: j in live' && keys[j] == x {
      if x == keys[k] {
        assert k in live';
      } else {
        var j :| j in live && keys[j] == x;
        assert j in live';
      }
    }
  }

  lemma MirrorsAfterRemove<K, C>(keys: seq<K>, live: map<nat, C>, table: map<K, C>, k: nat)
    requires Mirrors(keys, live, table) && k < |keys|
    requires forall j :: j in live && keys[j] == keys[k] ==> j == k
    ensures Mirrors(keys, live - {k}, table - {keys[k]})
  {
    var live', table' := live - {k}, table - {keys[k]};
    forall x | x in table' ensures exists j :: j in live' && keys[j] == x {
      var j :| j in live && keys[j] == x;
      assert j in live';
    }
  }

  lemma MirrorsAfterMore<K, C>(keys: seq<K>, live: map<nat, C>, table: map<K, C>, key: K)
    requires Mirrors(keys, live, table)
    ensures Mirrors(keys + [key], live, table)
  {
    forall x | x in table ensures exists j :: j in live && (keys + [key])[j] == x {
      var j :| j in live && keys[j] == x;
      assert (keys + [key])[j] == x;
    }
  }

  /** `locals[k]` is the local xip of dispatch k; `live` maps a dispatch to the
      client added under its xip and not removed since; `table` is dy_xip_map_. */
  datatype State<C> = State(start: bv32, locals: seq<Xip>, live: map<nat, C>, table: map<Xip, C>)

  datatype Op<C> = Dispatch(local: Xip) | Add(k: nat, client: C) | Remove(k: nat)

  /** The xips dispatched on these local xips, oldest first. */
  function Issued(start: bv32, locals: seq<Xip>): (keys: seq<Xip>)
    ensures |keys| == |locals|
  {
    if locals == [] then []
    else Issued(start, locals[..|locals| - 1]) + [Stamped(locals[|locals| - 1], Counter(start, |locals|))]
  }

  lemma {:induction false} IssuedAt(start: bv32, locals: seq<Xip>, k: nat)
    requires k < |locals|
    ensures Issued(start, locals)[k] == Stamped(locals[k], Counter(start, k + 1))
    decreases |locals|
  {
    hide Stamped, Counter;
    if k < |locals| - 1 {
      IssuedAt(start, locals[..|locals| - 1], k);
    }
  }

  function Apply<C>(s: State<C>, op: Op<C>): State<C> {
    var keys := Issued(s.start, s.locals);
    match op
    case Dispatch(local) => s.(locals := s.locals + [local])
    case Add(k, c) => if k < |keys| then s.(live := s.live[k := c], table := s.table[keys[k] := c]) else s
    case Remove(k) => if k < |keys| then s.(live := s.live - {k}, table := s.table - {keys[k]}) else s
  }

  function Run<C>(s: State<C>, ops: seq<Op<C>>): State<C>
    decreases |ops|
  {
    if ops == [] then s else Run(Apply(s, ops[0]), ops[1..])
  }

  ghost predicate Near<C>(s: State<C>, k: nat) {
    forall j :: j in s.live ==> k < j + WINDOW && j < k + WINDOW
  }

  /** A dispatched xip is taken by one client at a time, while fewer than 2^24
      dispatches lie between it and every client still present. */
  ghost predicate Allowed<C>(s: State<C>, op: Op<C>) {
    match op
    case Dispatch(_) => true
    case Add(k, _) => k < |s.locals| && k !in s.live && Near(s, k)
    case Remove(k) => k < |s.locals| && Near(s, k)
  }

  ghost predicate Disciplined<C>(s: State<C>, ops: seq<Op<C>>)
    decreases |ops|
  {
    ops == [] || (Allowed(s, ops[0]) && Disciplined(Apply(s, ops[0]), ops[1..]))
  }

  ghost predicate Inv<C>(s: State<C>) {
    Mirrors(Issued(s.start, s.locals), s.live, s.table)
  }

  lemma IssuedAgreeExactlyWhen(start: bv32, locals: seq<Xip>, j: nat, k: nat)
    requires j < |locals| && k < |locals|
    ensures Issued(start, locals)[j] == Issued(start, locals)[k] <==>
              locals[j].rest == locals[k].rest && (j - k) % WINDOW == 0
  {
    hide Stamped, Counter, Issued;
    IssuedAt(start, locals, j);
    IssuedAt(start, locals, k);
    DispatchesAgreeExactlyWhen(start, locals[j], locals[k], j + 1, k + 1);
  }

  /** AddClientNode finds its key taken exactly when a client is present whose
      dispatch lies a multiple of 2^24 away on the same local xip. */
  lemma AddOverwritesExactlyWhen<C>(s: State<C>, k: nat)
    requires Inv(s) && k < |s.locals|
    ensures Issued(s.start, s.locals)[k] in s.table <==>
              exists j :: j in s.live && s.locals[j].rest == s.locals[k].rest && (j - k) % WINDOW == 0
  {
    hide Issued;
    var keys := Issued(s.start, s.locals);
    forall j | j in s.live
      ensures keys[j] == keys[k] <==> s.locals[j].rest == s.locals[k].rest && (j - k) % WINDOW == 0
    {
      IssuedAgreeExactlyWhen(s.start, s.locals, j, k);
    }
  }

  lemma NearMultiple(j: nat, k: nat)
    requires k < j + WINDOW && j < k + WINDOW && (j - k) % WINDOW == 0
    ensures j == k
  {
  }

  lemma NearIsDistinct<C>(s: State<C>, k: nat)
    requires Inv(s) && k < |s.locals| && Near(s, k)
    ensures var keys := Issued(s.start, s.locals);
            forall j :: j in s.live && keys[j] == keys[k] ==> j == k
  {
    hide Issued;
    var keys := Issued(s.start, s.locals);
    forall j | j in s.live && keys[j] == keys[k] ensures j == k {
      IssuedAgreeExactlyWhen(s.start, s.locals, j, k);
      NearMultiple(j, k);
    }
  }

  lemma IssuedMore(start: bv32, locals: seq<Xip>, local: Xip)
    ensures Issued(start, locals + [local])
         == Issued(start, locals) + [Stamped(local, Counter(start, |locals| + 1))]
  {
    hide Stamped, Counter;
    assert (locals + [local])[..|locals|] == locals;
  }

  lemma StepKeeps<C>(s: State<C>, op: Op<C>)
    requires Inv(s) && Allowed(s, op)
    ensures Inv(Apply(s, op))
  {
    hide Issued, Stamped, Counter, Mirrors;
    var keys := Issued(s.start, s.locals);
    match op
    case Dispatch(local) =>
      IssuedMore(s.start, s.locals, local);
      MirrorsAfterMore(keys, s.live, s.table, Stamped(local, Counter(s.start, |s.locals| + 1)));
    case Add(k, c) =>
      NearIsDistinct(s, k);
      MirrorsAfterAdd(keys, s.live, s.table, k, c);
    case Remove(k) =>
      NearIsDistinct(s, k);
      MirrorsAfterRemove(keys, s.live, s.table, k);
  }

  /** Over every disciplined run, from any counter value, no AddClientNode
      overwrites a client that is present and no RemoveClientNode takes another's. */
  lemma {:induction false} RunKeepsClients<C>(s: State<C>, ops: seq<Op<C>>)
    requires Inv(s) && Disciplined(s, ops)
    ensures Inv(Run(s, ops))
    decreases |ops|
  {
    hide Apply, Allowed, Inv;
    if ops == [] {
    } else {
      StepKeeps(s, ops[0]);
      RunKeepsClients(Apply(s, ops[0]), ops[1..]);
    }
  }

  lemma NextDispatch(now: bv32, local: Xip)
    ensures var n := (Number(now) + 1) % 0x1_0000_0000;
            var xip := Stamped(local, Next(now));
            && Number(Next(now)) == n
            && Number(xip.localId) == n % 256 && Number(xip.switchId) == n / 256 % 256
            && Number(xip.routerId) == n / 65536 % 16 && Number(xip.processId) == 16 * (n / 1048576 % 16)
  {
    assert Counter(now, 1) == Next(Counter(now, 0)) == Next(now);
    CounterIsNumber(now, 1);
    hide Number, Next, Stamped, Counter;
    DispatchIsArithmetic(now, local, 1);
  }

  // ---------------------------------------------------------------- the object

  class DynamicXipManager<C> {
    var atomXipManagerId: bv32
    var dyXipMap: map<Xip, C>
    ghost var start: bv32
    ghost var locals: seq<Xip>
    ghost var live: map<nat, C>

    ghost function View(): State<C>
      reads this
    {
      State(start, locals, live, dyXipMap)
    }

    ghost predicate Valid()
      reads this
    {
      atomXipManagerId == Counter(start, |locals|)
    }

    /** The xip of dispatch k. */
    ghost predicate IsOf(xip: Xip, k: nat)
      reads this
    {
      k < |locals| && xip == Issued(start, locals)[k]
    }

    /** The counter is not initialized by the program, so it starts anywhere. */
    constructor (now: bv32)
      ensures Valid() && View() == State(now, [], map[], map[]) && Inv(View())
    {
      atomXipManagerId, dyXipMap := now, map[];
      start, locals, live := now, [], map[];
    }

    method DispatchDynamicXip(local: Xip) returns (xip: Xip)
      requires Valid()
      modifies this`atomXipManagerId, this`locals
      ensures Valid() && View() == Apply(old(View()), Dispatch(local))
      ensures IsOf(xip, |locals| - 1) && xip.dynamic && xip.rest == local.rest
      ensures var n := (Number(old(atomXipManagerId)) + 1) % 0x1_0000_0000;
              && Number(atomXipManagerId) == n
              && Number(xip.localId) == n % 256 && Number(xip.switchId) == n / 256 % 256
              && Number(xip.routerId) == n / 65536 % 16 && Number(xip.processId) == 16 * (n / 1048576 % 16)
      ensures Inv(old(View())) ==> Inv(View())
    {
      hide Mirrors;
      if Inv(View()) {
        StepKeeps(View(), Dispatch(local));
      }
      IssuedMore(start, locals, local);
      NextDispatch(atomXipManagerId, local);
      atomXipManagerId := Next(atomXipManagerId);
      var id := atomXipManagerId;
      xip := local.(dynamic := true);
      xip := xip.(processId := ProcessId(id));
      xip := xip.(routerId := RouterId(id));
      xip := xip.(switchId := SwitchId(id));
      xip := xip.(localId := LocalId(id));
      locals := locals + [local];
      hide Counter, Issued, Number, ProcessId, RouterId, SwitchId, LocalId;
    }

    /** Under the xip of dispatch k this is the step Add of a run; within the
        window every client present is found under its own xip afterwards. */
    method AddClientNode(xip: Xip, client: C, ghost k: nat)
      modifies this`dyXipMap, this`live
      ensures dyXipMap == old(dyXipMap)[xip := client]
      ensures old(IsOf(xip, k)) ==> View() == Apply(old(View()), Add(k, client))
      ensures old(IsOf(xip, k) && Inv(View()) && Allowed(View(), Add(k, client))) ==>
                Inv(View()) && xip !in old(dyXipMap)
    {
      hide Issued, Mirrors;
      if IsOf(xip, k) {
        if Inv(View()) && Allowed(View(), Add(k, client)) {
          StepKeeps(View(), Add(k, client));
          KeyIsFree(View(), k);
        }
        live := live[k := client];
      }
      dyXipMap := dyXipMap[xip := client];
    }

    /** Under the xip of dispatch k this is the step Remove of a run. */
    method RemoveClientNode(xip: Xip, ghost k: nat)
      modifies this`dyXipMap, this`live
      ensures dyXipMap == old(dyXipMap) - {xip}
      ensures old(IsOf(xip, k)) ==> View() == Apply(old(View()), Remove(k))
      ensures old(IsOf(xip, k) && Inv(View()) && Allowed(View(), Remove(k))) ==> Inv(View())
    {
      hide Issued, Mirrors;
      if IsOf(xip, k) {
        if Inv(View()) && Allowed(View(), Remove(k)) {
          StepKeeps(View(), Remove(k));
        }
        live := live - {k};
      }
      if xip in dyXipMap {
        dyXipMap := dyXipMap - {xip};
      }
    }

    /** Whatever happened before within the window: the client added for the
        dispatch and not removed since, and nothing when there is none. */
    method FindClientNode(xip: Xip, ghost k: nat) returns (r: Option<C>)
      ensures r == if xip in dyXipMap then Some(dyXipMap[xip]) else None
      ensures Inv(View()) && IsOf(xip, k) && Near(View(), k) ==> r == if k in live then Some(live[k]) else None
    {
      hide Issued;
      if Inv(View()) && IsOf(xip, k) && Near(View(), k) {
        FindsOwnClient(View(), k);
      }
      if xip in dyXipMap {
        return Some(dyXipMap[xip]);
      }
      return None;
    }
  }

  /** Within the window a dispatched xip leads to the client added for its own
      dispatch, if that is present, and to no other. */
  lemma FindsOwnClient<C>(s: State<C>, k: nat)
    requires Inv(s) && k < |s.locals| && Near(s, k)
    ensures var x := Issued(s.start, s.locals)[k];
            && (x in s.table <==> k in s.live)
            && (k in s.live ==> s.table[x] == s.live[k])
  {
    NearIsDistinct(s, k);
    hide Issued;
  }

  lemma KeyIsFree<C>(s: State<C>, k: nat)
    requires Inv(s) && k < |s.locals| && k !in s.live && Near(s, k)
    ensures Issued(s.start, s.locals)[k] !in s.table
  {
    FindsOwnClient(s, k);
  }
}
