/**
 Self-relative links: a field holds the distance from its own address to the object it names, so a block of
 memory can be moved as a whole. Tree links keep a balance in the two low bits.
 */
module SelfRelative {
  import opened Words

  /** A 64-bit address or field. */
  type Word = w: int | 0 <= w < TWO_64

  type Bits = b: int | 0 <= b < 4

  /** `field & ~AVL_BALANCEMASK`. */
  function Offset(field: Word): Word {
    field - field % 4
  }

  /** `field & AVL_BALANCEMASK`. */
  function Balance(field: Word): Bits {
    field % 4
  }

  /** `x | y` on the two balance bits. */
  function OrBits(x: Bits, y: Bits): Bits {
    (if x % 2 == 1 || y % 2 == 1 then 1 else 0) + (if x >= 2 || y >= 2 then 2 else 0)
  }

  /** `bits | field`. */
  function Or(bits: Bits, field: Word): Word {
    Offset(field) + OrBits(bits, Balance(field))
  }

  // Arithmetic on addresses wraps at 64 bits.

  function Plus(a: Word, b: Word): Word {
    if a + b < TWO_64 then a + b else a + b - TWO_64
  }

  function Minus(a: Word, b: Word): Word {
    if a >= b then a - b else a - b + TWO_64
  }

  /** `AVL_SRP_SETNODE` on the field at address `a`. */
  function SetNode(a: Word, field: Word, value: Word): Word {
    Or(Balance(field), if value != 0 then Minus(value, a) else 0)
  }

  /** `AVL_NNSRP_SETNODE`, which does not look for NULL. */
  function SetNonNullNode(a: Word, field: Word, value: Word): Word {
    Or(Balance(field), Minus(value, a))
  }

  function SetToNull(field: Word): Word {
    Balance(field)
  }

  /** `AVL_SRP_GETNODE`. */
  function GetNode(a: Word, field: Word): Word {
    if Offset(field) != 0 then Plus(a, Offset(field)) else 0
  }

  function GetNonNullNode(a: Word, field: Word): Word {
    Plus(a, Offset(field))
  }

  /** `AVL_SETBALANCE` on the left link of a node. */
  function SetBalance(field: Word, balance: Bits): Word {
    Or(balance, Offset(field))
  }

  predicate Aligned(distance: Word) {
    Balance(distance) == 0
  }

  lemma TaggedOffset(tag: Bits, d: Word)
    ensures Offset(Or(tag, d)) == Offset(d)
  {
  }

  lemma TaggedBalance(tag: Bits, d: Word)
    ensures Balance(Or(tag, d)) == OrBits(tag, Balance(d))
  {
  }

  lemma SmallWord(b: Bits)
    ensures Offset(b) == 0 && Balance(b) == b
  {
  }

  lemma OrNothing(b: Bits)
    ensures Or(b, 0) == b && OrBits(b, 0) == b
  {
  }

  lemma BalanceBits(field: Word, balance: Bits)
    ensures Balance(Or(balance, Offset(field))) == balance && Offset(Or(balance, Offset(field))) == Offset(field)
  {
    hide Offset, Balance, Or;
    OffsetAlone(field);
    OrToOffset(balance, Offset(field));
    OffsetAndBits(field, balance);
  }

  lemma OrToOffset(b: Bits, o: Word)
    requires Offset(o) == o && Balance(o) == 0
    ensures Or(b, o) == o + b
  {
    hide Offset, Balance;
  }

  lemma OffsetAlone(field: Word)
    ensures Offset(Offset(field)) == Offset(field) && Balance(Offset(field)) == 0
  {
  }

  lemma OffsetAndBits(field: Word, b: Bits)
    ensures Offset(field) + b < TWO_64
    ensures Offset(Offset(field) + b) == Offset(field) && Balance(Offset(field) + b) == b
  {
    var q := field / 4;
    assert Offset(field) == 4 * q;
    assert (4 * q + b) % 4 == b;
  }

  lemma Distance(a: Word, v: Word)
    ensures Plus(a, Minus(v, a)) == v
    ensures Minus(v, a) == 0 <==> v == a
  {
  }

  lemma SameSum(a: Word, x: Word, y: Word)
    ensures Plus(a, x) == Plus(a, y) ==> x == y
  {
  }

  lemma AlignedOffset(d: Word)
    ensures Offset(d) == d <==> Aligned(d)
  {
  }

  /** What was set is read back exactly for NULL and for nodes other than the field itself at an aligned
      distance. */
  lemma RoundTripIff(a: Word, field: Word, value: Word)
    ensures GetNode(a, SetNode(a, field, value)) == value <==> value == 0 || (value != a && Aligned(Minus(value, a)))
  {
    hide Offset, Balance, Aligned, Plus, Minus, Or, OrBits;
    var d := Minus(value, a);
    TaggedOffset(Balance(field), d);
    TaggedOffset(Balance(field), 0);
    OrNothing(Balance(field));
    SmallWord(Balance(field));
    AlignedOffset(d);
    Distance(a, value);
    SameSum(a, Offset(d), d);
  }

  /** The form without the NULL test reads back every node at an aligned distance, itself included. */
  lemma NonNullRoundTripIff(a: Word, field: Word, value: Word)
    ensures GetNonNullNode(a, SetNonNullNode(a, field, value)) == value <==> Aligned(Minus(value, a))
  {
    hide Offset, Balance, Aligned, Plus, Minus, Or, OrBits;
    var d := Minus(value, a);
    TaggedOffset(Balance(field), d);
    AlignedOffset(d);
    Distance(a, value);
    SameSum(a, Offset(d), d);
  }

  /** `OrBits` is the bitwise or. */
  lemma OrBitByBit(x: Bits, y: Bits)
    ensures OrBits(x, y) % 2 == 0 <==> x % 2 == 0 && y % 2 == 0
    ensures OrBits(x, y) / 2 == 0 <==> x / 2 == 0 && y / 2 == 0
  {
  }

  /** Setting a link keeps the balance exactly when each of the two low bits of the distance is in the balance already,
      as those of any aligned one are. */
  lemma SetNodeKeepsBalanceIff(a: Word, field: Word, value: Word)
    ensures var d, b := Minus(value, a) % 4, Balance(field);
            Balance(SetNode(a, field, value)) == b
            <==> (value == 0 || ((d % 2 == 1 ==> b % 2 == 1) && (d >= 2 ==> b >= 2)))
    ensures Aligned(Minus(value, a)) ==> Balance(SetNode(a, field, value)) == Balance(field)
    ensures Balance(SetToNull(field)) == Balance(field) && GetNode(a, SetToNull(field)) == 0
  {
    hide Offset, Balance, Plus, Minus, Or, OrBits;
    TaggedBalance(Balance(field), Minus(value, a));
    TaggedBalance(Balance(field), 0);
    OrNothing(Balance(field));
    SmallWord(Balance(field));
    LowBits(Minus(value, a));
    OrSubset(Balance(field), Balance(Minus(value, a)));
  }

  lemma LowBits(d: Word)
    ensures Balance(d) == d % 4
  {
  }

  lemma OrSubset(b: Bits, r: Bits)
    ensures OrBits(b, r) == b <==> (r % 2 == 1 ==> b % 2 == 1) && (r >= 2 ==> b >= 2)
  {
  }

  /** What a link stores beside the balance is the distance from the field to the object, modulo the word. */
  lemma LinkIsDistance(a: Word, field: Word, value: Word)
    requires value != 0 && Aligned(Minus(value, a))
    ensures (a + Offset(SetNode(a, field, value)) - value) % TWO_64 == 0
    ensures (a + Offset(SetNonNullNode(a, field, value)) - value) % TWO_64 == 0
  {
    TaggedOffset(Balance(field), Minus(value, a));
  }

  /** Setting a balance of two bits reads back and keeps the link. */
  lemma SetBalanceKeepsNode(a: Word, field: Word, balance: Bits)
    ensures Balance(SetBalance(field, balance)) == balance
    ensures GetNode(a, SetBalance(field, balance)) == GetNode(a, field)
  {
    hide Offset, Balance, Plus, Or;
    BalanceBits(field, balance);
  }

  // ---- links of 32 bits ----

  /** `NNSRP_SET` and `NNSRP_GET` for addresses of 64 bits, and the forms that stand for NULL by 0. */
  function NonNullSrpSet(a: Word, value: Word): int {
    Int32(value - a)
  }

  function NonNullSrpGet(a: Word, field: int): Word {
    UInt64(a + field)
  }

  function SrpSet(a: Word, value: Word): int {
    if value != 0 then NonNullSrpSet(a, value) else 0
  }

  function SrpGet(a: Word, field: int): Word {
    if field != 0 then NonNullSrpGet(a, field) else 0
  }

  /** The object is within 2 GiB of the field, round the end of the address space if need be. */
  predicate Near(a: Word, value: Word) {
    -TWO_31 <= Int64(value - a) < TWO_31
  }

  /** A 32-bit link reads back exactly when the object is near. */
  lemma ShortNonNullRoundTripIff(a: Word, value: Word)
    ensures NonNullSrpGet(a, NonNullSrpSet(a, value)) == value <==> Near(a, value)
  {
    hide Int32, Int64, UInt64;
    var d, s := value - a, Int32(value - a);
    Int64Near(d);
    UInt64Near(a + s);
    if Near(a, value) {
      ShortDistance(d);
    }
  }

  /** With NULL stood for by 0, a 32-bit link reads back exactly for NULL and for near objects other than the
      field itself. */
  lemma ShortRoundTripIff(a: Word, value: Word)
    ensures SrpGet(a, SrpSet(a, value)) == value <==> value == 0 || (value != a && Near(a, value))
  {
    ShortNonNullRoundTripIff(a, value);
    ShortDistanceIsZero(value - a);
  }

  lemma ShortDistanceIsZero(d: int)
    ensures d == 0 ==> Int32(d) == 0
    ensures -TWO_64 < d < TWO_64 && d != 0 && -TWO_31 <= Int64(d) < TWO_31 ==> Int32(d) != 0
  {
    hide Int32, Int64;
    if -TWO_64 < d < TWO_64 && -TWO_31 <= Int64(d) < TWO_31 {
      Int64Near(d);
      ShortDistance(d);
    }
    if d == 0 {
      Int64Near(d);
      ShortDistance(d);
    }
  }

  /** Pointer-wide links: `WSRP_SET` and `WSRP_GET`. */
  function WsrpSet(a: Word, value: Word): Word {
    if value != 0 then Minus(value, a) else 0
  }

  function WsrpGet(a: Word, field: Word): Word {
    if field != 0 then Plus(a, field) else 0
  }

  /** A pointer-wide link reads back everything but the field itself. */
  lemma WideRoundTripIff(a: Word, value: Word)
    ensures WsrpGet(a, WsrpSet(a, value)) == value <==> value == 0 || value != a
  {
    hide Plus, Minus;
    Distance(a, value);
  }

  /** Plain links store the distance too, in 64 bits, or in 32 with its sign when the object is near. */
  lemma PlainLinkIsDistance(a: Word, value: Word)
    requires value != 0
    ensures (a + WsrpSet(a, value) - value) % TWO_64 == 0
    ensures Near(a, value) ==> -TWO_31 <= SrpSet(a, value) < TWO_31 && (a + SrpSet(a, value) - value) % TWO_64 == 0
  {
    hide Int32, Int64;
    if Near(a, value) {
      ShortDistance(value - a);
      Int64Near(value - a);
    }
  }

  lemma UInt64Near(x: int)
    requires -TWO_64 < x < 2 * TWO_64
    ensures UInt64(x) == if x < 0 then x + TWO_64 else if x < TWO_64 then x else x - TWO_64
  {
  }

  lemma ShortDistance(d: int)
    requires -TWO_64 < d < TWO_64 && -TWO_31 <= Int64(d) < TWO_31
    ensures Int32(d) == Int64(d)
  {
    hide Int64;
    var e := Int64(d);
    Int64Near(d);
    assert d == e || d == e + TWO_64 || d == e - TWO_64;
    Remainder(d + TWO_31, if d == e then 0 else if d > e then TWO_32 else -TWO_32, e + TWO_31);
  }

  lemma Int64Near(d: int)
    requires -TWO_64 < d < TWO_64
    ensures Int64(d) == if d < -TWO_63 then d + TWO_64 else if d < TWO_63 then d else d - TWO_64
  {
  }

  lemma Remainder(x: int, q: int, r: int)
    requires x == q * TWO_32 + r && 0 <= r < TWO_32
    ensures x % TWO_32 == r
  {
  }

  // ---- a tree in memory ----

  type Memory = map<Word, Word>

  /** What a tree link means: the addresses of the nodes and their balances. */
  datatype Tree = Empty | Node(at: Word, balance: Bits, left: Tree, right: Tree)

  /** The field at `a` links to this tree: an offset of 0 for none, otherwise the distance to its root. A node has
      its left link, with the balance, at its own address and its right link in the next word. */
  ghost predicate Links(m: Memory, a: Word, t: Tree)
    decreases t
  {
    a in m &&
    match t
    case Empty => Offset(m[a]) == 0
    case Node(at, balance, left, right) =>
      && Offset(m[a]) != 0 && at != 0 && Plus(a, Offset(m[a])) == at
      && at in m && Balance(m[at]) == balance && Links(m, at, left)
      && Links(m, Plus(at, 8), right)
  }

  /** A decoded link is what the source reads. */
  lemma LinksReads(m: Memory, a: Word, t: Tree)
    requires Links(m, a, t)
    ensures GetNode(a, m[a]) == if t.Empty? then 0 else t.at
  {
    hide Offset, Plus;
  }

  ghost predicate Inside(t: Tree, n: Word) {
    t.Node? && (t.at == n || Inside(t.left, n) || Inside(t.right, n))
  }

  function Moved(t: Tree, d: Word): Tree {
    match t
    case Empty => Empty
    case Node(at, balance, left, right) => Node(Plus(at, d), balance, Moved(left, d), Moved(right, d))
  }

  /** Every word of the tree was copied `d` further. */
  ghost predicate Copied(m: Memory, m': Memory, t: Tree, d: Word) {
    forall n :: Inside(t, n) ==> WordCopied(m, m', n, d) && WordCopied(m, m', Plus(n, 8), d)
  }

  ghost predicate WordCopied(m: Memory, m': Memory, n: Word, d: Word) {
    n in m ==> Plus(n, d) in m' && m'[Plus(n, d)] == m[n]
  }

  ghost predicate NoneAtNull(t: Tree, d: Word) {
    forall n :: Inside(t, n) ==> Plus(n, d) != 0
  }

  lemma MovedSum(a: Word, o: Word, d: Word)
    ensures Plus(Plus(a, d), o) == Plus(Plus(a, o), d)
  {
  }

  /** Moving a block that holds a whole tree, by any distance, leaves the tree as it was, every node that far on,
      unless a node lands on address 0. */
  lemma {:induction false} MovingKeepsTree(m: Memory, m': Memory, a: Word, t: Tree, d: Word)
    requires Links(m, a, t) && WordCopied(m, m', a, d) && Copied(m, m', t, d)
    ensures Links(m', Plus(a, d), Moved(t, d)) <==> NoneAtNull(t, d)
    decreases t
  {
    hide Offset, Balance, Plus;
    if t.Node? {
      MovedSum(a, Offset(m[a]), d);
      MovedSum(t.at, 8, d);
      assert Inside(t, t.at);
      assert WordCopied(m, m', t.at, d) && WordCopied(m, m', Plus(t.at, 8), d);
      PartsCopied(m, m', t, d);
      MovingKeepsTree(m, m', t.at, t.left, d);
      MovingKeepsTree(m, m', Plus(t.at, 8), t.right, d);
      NullParts(t, d);
    }
  }

  lemma PartsCopied(m: Memory, m': Memory, t: Tree, d: Word)
    requires t.Node? && Copied(m, m', t, d)
    ensures Copied(m, m', t.left, d) && Copied(m, m', t.right, d)
  {
    hide WordCopied, Plus;
    forall n | Inside(t.left, n) || Inside(t.right, n)
      ensures WordCopied(m, m', n, d) && WordCopied(m, m', Plus(n, 8), d)
    {
      assert Inside(t, n);
    }
  }

  lemma NullParts(t: Tree, d: Word)
    requires t.Node?
    ensures NoneAtNull(t, d) <==> Plus(t.at, d) != 0 && NoneAtNull(t.left, d) && NoneAtNull(t.right, d)
  {
    hide Plus;
    assert Inside(t, t.at);
    if NoneAtNull(t.left, d) && NoneAtNull(t.right, d) && Plus(t.at, d) != 0 {
      assert NoneAtNull(t, d);
    }
    if NoneAtNull(t, d) {
      assert forall n :: Inside(t.left, n) ==> Inside(t, n);
      assert forall n :: Inside(t.right, n) ==> Inside(t, n);
    }
  }

  // ---- updating a tree in memory ----

  /** Writing a word that is not part of a tree leaves the tree alone. */
  lemma {:induction false} OutsideWrite(m: Memory, a: Word, t: Tree, at: Word, w: Word)
    requires Links(m, a, t) && at != a && Untouched(t, at)
    ensures Links(m[at := w], a, t)
    decreases t
  {
    hide Offset, Balance, Plus;
    if t.Node? {
      assert Inside(t, t.at);
      assert Apart(t.at, at);
      UntouchedParts(t, at);
      OutsideWrite(m, t.at, t.left, at, w);
      OutsideWrite(m, Plus(t.at, 8), t.right, at, w);
    }
  }

  predicate Apart(n: Word, at: Word) {
    at != n && at != Plus(n, 8)
  }

  ghost predicate Untouched(t: Tree, at: Word) {
    forall n :: Inside(t, n) ==> Apart(n, at)
  }

  lemma UntouchedParts(t: Tree, at: Word)
    requires t.Node? && Untouched(t, at)
    ensures Untouched(t.left, at) && Untouched(t.right, at)
  {
    hide Apart, Plus;
    assert forall n :: Inside(t.left, n) || Inside(t.right, n) ==> Inside(t, n);
  }

  /** Setting a link to the root of another tree makes the field link to that tree. */
  lemma SetNodeLinks(m: Memory, a: Word, from: Word, t: Tree)
    requires a in m && Links(m, from, t) && Untouched(t, a) && t.Node? && a != t.at && Aligned(Minus(t.at, a))
    ensures Links(m[a := SetNode(a, m[a], t.at)], a, t)
    ensures Balance(m[a := SetNode(a, m[a], t.at)][a]) == Balance(m[a])
  {
    hide Offset, Balance, Aligned, Apart, Plus, Minus, SetNode;
    var w := SetNode(a, m[a], t.at);
    var m' := m[a := w];
    RoundTripIff(a, m[a], t.at);
    SetNodeKeepsBalanceIff(a, m[a], t.at);
    assert Inside(t, t.at);
    NodeUntouched(t, a);
    UntouchedParts(t, a);
    OutsideWrite(m, t.at, t.left, a, w);
    OutsideWrite(m, Plus(t.at, 8), t.right, a, w);
  }

  lemma NodeUntouched(t: Tree, a: Word)
    requires t.Node? && Untouched(t, a)
    ensures a != t.at && a != Plus(t.at, 8)
  {
    assert Inside(t, t.at);
  }

  function Rebalanced(t: Tree, n: Word, balance: Bits): Tree {
    match t
    case Empty => Empty
    case Node(at, b, left, right) =>
      Node(at, if at == n then balance else b, Rebalanced(left, n, balance), Rebalanced(right, n, balance))
  }

  /** No right link of the tree shares its word with the left link of node `n`. */
  ghost predicate Separate(t: Tree, n: Word) {
    forall k :: Inside(t, k) ==> Plus(k, 8) != n
  }

  /** Setting the balance of a node changes that balance and nothing else in the whole tree. */
  lemma {:induction false} SetBalanceRebalances(m: Memory, a: Word, t: Tree, n: Word, balance: Bits)
    requires Links(m, a, t) && n in m && Separate(t, n)
    ensures Links(m[n := SetBalance(m[n], balance)], a, Rebalanced(t, n, balance))
    decreases t
  {
    hide Offset, Balance, SetBalance, Plus;
    BalanceWord(m[n], balance);
    if t.Node? {
      assert Inside(t, t.at);
      assert Plus(t.at, 8) != n;
      assert forall k :: Inside(t.left, k) || Inside(t.right, k) ==> Inside(t, k);
      SetBalanceRebalances(m, t.at, t.left, n, balance);
      SetBalanceRebalances(m, Plus(t.at, 8), t.right, n, balance);
    }
  }

  lemma BalanceWord(field: Word, balance: Bits)
    ensures Offset(SetBalance(field, balance)) == Offset(field) && Balance(SetBalance(field, balance)) == balance
  {
    BalanceBits(field, balance);
  }
}
