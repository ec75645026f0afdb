/** Walking the structure block of a flattened devicetree (section 5.4 of the Devicetree
    Specification): a cursor into bytes, on any bytes at all and on the encodings of trees. */
module DeviceTree {

  type Byte = x: int | 0 <= x < 256

  const BEGIN_NODE: nat := 1
  const END_NODE: nat := 2
  const PROP: nat := 3
  const NOP: nat := 4
  const END: nat := 9

  const ADDRESS_CELLS: string := "#address-cells"
  const SIZE_CELLS: string := "#size-cells"

  datatype CellSize = CellSize(address: nat, size: nat)

  const DEFAULT: CellSize := CellSize(2, 1)

  /** A call of the callback: where the property is, and the cell sizes it is given. */
  datatype Call = Call(entry: nat, cells: CellSize)

  /** A walk ends, or the kernel aborts on a bad token, or it reads outside the block. */
  datatype Result = Done(cursor: nat, calls: seq<Call>) | Aborted | Outside

  /** A big-endian word. */
  function Word(b: seq<Byte>, p: nat): nat
    requires p + 4 <= |b|
  {
    b[p] as int * 0x100_0000 + b[p + 1] as int * 0x1_0000 + b[p + 2] as int * 0x100 + b[p + 3] as int
  }

  function PadLen(len: nat): nat { if len % 4 == 0 then len else len + (4 - len % 4) }

  /** The next multiple of 4, and no other. */
  lemma PadLenIs(len: nat)
    ensures len <= PadLen(len) < len + 4 && PadLen(len) % 4 == 0
  {
  }

  /** The length of the string at `p`; one that does not end in the block is as long as what is left. */
  function StrLen(b: seq<Byte>, p: nat): (n: nat)
    ensures forall i :: p <= i < p + n && i < |b| ==> b[i] != 0
    ensures p <= |b| ==> p + n <= |b|
    ensures p + n < |b| ==> b[p + n] == 0
    decreases |b| - p
  {
    if p >= |b| || b[p] == 0 then 0 else StrLen(b, p + 1) + 1
  }

  function Chars(s: string): seq<Byte>
    requires forall i :: 0 <= i < |s| ==> s[i] as int < 256
  {
    seq(|s|, i requires 0 <= i < |s| => s[i] as int)
  }

  predicate MatchesAt(b: seq<Byte>, p: nat, s: seq<Byte>) { p + |s| <= |b| && b[p..p + |s|] == s }

  /** `strcmp` with the string at `p` is 0. */
  predicate StringIs(b: seq<Byte>, p: nat, s: seq<Byte>) { MatchesAt(b, p, s + [0]) }

  /** That is: the string at `p` has the length of `s`, and its characters. */
  lemma StringIsExact(b: seq<Byte>, p: nat, s: seq<Byte>)
    requires forall i :: 0 <= i < |s| ==> s[i] != 0
    ensures StringIs(b, p, s) <==>
            p + |s| < |b| && StrLen(b, p) == |s| && forall i :: 0 <= i < |s| ==> b[p + i] == s[i]
  {
    var z := s + [0];
    if StringIs(b, p, s) {
      forall i | 0 <= i <= |s| ensures b[p + i] == z[i] {
        assert b[p..p + |z|][i] == b[p + i];
      }
      assert b[p + |s|] == z[|s|] == 0;
      forall i | p <= i < p + |s| ensures b[i] != 0 {
        assert b[p + (i - p)] == z[i - p] == s[i - p];
      }
      StrLenIs(b, p, |s|);
      assert forall i :: 0 <= i < |s| ==> b[p + i] == z[i] == s[i];
    }
    if p + |s| < |b| && StrLen(b, p) == |s| && forall i :: 0 <= i < |s| ==> b[p + i] == s[i] {
      assert b[p + |s|] == 0;
      assert b[p..p + |z|] == z;
    }
  }

  /** Where `increment_fdt_struct` moves to, or Aborted, or Outside. */
  function Next(b: seq<Byte>, p: nat): (r: Result)
    ensures r.Done? ==> r.cursor >= p + 4 && r.calls == []
  {
    if p + 4 > |b| then Outside
    else
      var token := Word(b, p);
      if token == BEGIN_NODE then
        if p + 4 + StrLen(b, p + 4) < |b| then Done(p + 4 + PadLen(StrLen(b, p + 4) + 1), []) else Outside
      else if token == PROP then
        if p + 12 <= |b| then Done(p + 12 + PadLen(Word(b, p + 4)), []) else Outside
      else if token == END_NODE || token == NOP then Done(p + 4, [])
      else Aborted
  }

  /** What the property at `p` makes of the cell sizes for the nodes below; `t` are the strings. */
  function CellsAt(b: seq<Byte>, t: seq<Byte>, p: nat, next: CellSize): CellSize
    requires p + 16 <= |b|
  {
    if StringIs(t, Word(b, p + 8), Chars(ADDRESS_CELLS)) then next.(address := Word(b, p + 12))
    else if StringIs(t, Word(b, p + 8), Chars(SIZE_CELLS)) then next.(size := Word(b, p + 12))
    else next
  }

  /** Only a cell size property has its value read. */
  predicate IsCells(b: seq<Byte>, t: seq<Byte>, p: nat)
    requires p + 12 <= |b|
  {
    StringIs(t, Word(b, p + 8), Chars(ADDRESS_CELLS)) || StringIs(t, Word(b, p + 8), Chars(SIZE_CELLS))
  }

  function Prepend(calls: seq<Call>, r: Result): Result {
    match r case Done(q, more) => Done(q, calls + more) case _ => r
  }

  /** `for_each_prop_in_node` from cursor `p` on. */
  function Walk(b: seq<Byte>, t: seq<Byte>, prefix: seq<Byte>, p: nat, use: bool, cur: CellSize,
      next: CellSize): (r: Result)
    ensures r.Done? ==> r.cursor >= p
    decreases |b| - p
  {
    if p + 4 > |b| then Outside
    else
      var token := Word(b, p);
      if token == BEGIN_NODE then
        match Next(b, p)
        case Done(q, _) =>
          (match Walk(b, t, prefix, q, MatchesAt(b, p + 4, prefix), next, DEFAULT)
           case Done(q', calls) => Prepend(calls, Walk(b, t, prefix, q', use, cur, next))
           case r => r)
        case r => r
      else if token == PROP then
        if p + 12 > |b| || (IsCells(b, t, p) && p + 16 > |b|) then Outside
        else
          var next' := if IsCells(b, t, p) then CellsAt(b, t, p, next) else next;
          Prepend(if use then [Call(p, cur)] else [], Walk(b, t, prefix, Next(b, p).cursor, use, cur, next'))
      else if token == NOP then Walk(b, t, prefix, p + 4, use, cur, next)
      else if token == END_NODE then Done(p + 4, [])
      else if token == END then Done(p, [])
      else Aborted
  }

  lemma NextIs(b: seq<Byte>, p: nat)
    ensures var r := Next(b, p);
            && (p + 4 <= |b| && Word(b, p) == 1 && r.Done? ==>
                  p + 4 + StrLen(b, p + 4) + 1 <= r.cursor < p + 4 + StrLen(b, p + 4) + 5 && (r.cursor - p) % 4 == 0)
            && (p + 12 <= |b| && Word(b, p) == 3 ==>
                  r.Done? && p + 12 + Word(b, p + 4) <= r.cursor < p + 16 + Word(b, p + 4) && (r.cursor - p) % 4 == 0)
            && (p + 4 <= |b| && Word(b, p) in {2, 4} ==> r == Done(p + 4, []))
            && (r.Aborted? <==> p + 4 <= |b| && Word(b, p) !in {1, 2, 3, 4})
  {
    hide PadLen, Word, StrLen;
    if p + 4 <= |b| && Word(b, p) == 1 {
      PadLenIs(StrLen(b, p + 4) + 1);
      FromEntry(p, 4, PadLen(StrLen(b, p + 4) + 1));
    } else if p + 12 <= |b| && Word(b, p) == 3 {
      PadLenIs(Word(b, p + 4));
      FromEntry(p, 12, PadLen(Word(b, p + 4)));
    }
  }

  lemma FromEntry(p: nat, head: nat, padded: nat)
    requires head % 4 == 0 && padded % 4 == 0
    ensures (p + head + padded - p) % 4 == 0
  {
  }

  /** `increment_fdt_struct`: behind a property or the name of a node the cursor goes to the next word,
      counted from the entry. */
  method IncrementFdtStruct(b: seq<Byte>, p: nat) returns (r: Result)
    ensures r == Next(b, p)
    ensures p + 4 <= |b| && Word(b, p) == 1 && r.Done? ==>
              p + 4 + StrLen(b, p + 4) + 1 <= r.cursor < p + 4 + StrLen(b, p + 4) + 5 && (r.cursor - p) % 4 == 0
    ensures p + 12 <= |b| && Word(b, p) == 3 ==>
              r.Done? && p + 12 + Word(b, p + 4) <= r.cursor < p + 16 + Word(b, p + 4) && (r.cursor - p) % 4 == 0
    ensures p + 4 <= |b| && Word(b, p) in {2, 4} ==> r == Done(p + 4, [])
    ensures r.Aborted? <==> p + 4 <= |b| && Word(b, p) !in {1, 2, 3, 4}
  {
    NextIs(b, p);
    if p + 4 > |b| {
      return Outside;
    }
    var token := Word(b, p);
    if token == BEGIN_NODE {
      var len := 0;
      while p + 4 + len < |b| && b[p + 4 + len] != 0
        invariant len <= StrLen(b, p + 4) && StrLen(b, p + 4) == len + StrLen(b, p + 4 + len)
        decreases |b| - len
      {
        len := len + 1;
      }
      if p + 4 + len >= |b| {
        return Outside;
      }
      r := Done(p + 4 + PadLen(len + 1), []);
    } else if token == PROP {
      if p + 12 > |b| {
        return Outside;
      }
      r := Done(p + 4 + 8 + PadLen(Word(b, p + 4)), []);
    } else if token == END_NODE || token == NOP {
      r := Done(p + 4, []);
    } else {
      r := Aborted;
    }
  }

  lemma PrependTwice(a: seq<Call>, c: seq<Call>, r: Result)
    ensures Prepend(a, Prepend(c, r)) == Prepend(a + c, r) && Prepend([], r) == r
  {
    if r.Done? {
      assert a + (c + r.calls) == (a + c) + r.calls;
      assert [] + r.calls == r.calls;
    }
  }

  /** The walk in terms of the cursor after the entry at `p`. */
  lemma WalkEntry(b: seq<Byte>, t: seq<Byte>, prefix: seq<Byte>, p: nat, use: bool, cur: CellSize, next: CellSize)
    requires p + 4 <= |b|
    ensures var (w, n) := (Walk(b, t, prefix, p, use, cur, next), Next(b, p));
            match Word(b, p)
            case 1 =>
              if !n.Done? then w == n
              else
                var sub := Walk(b, t, prefix, n.cursor, MatchesAt(b, p + 4, prefix), next, DEFAULT);
                if sub.Done? then
                  sub.cursor >= p + 4 && w == Prepend(sub.calls, Walk(b, t, prefix, sub.cursor, use, cur, next))
                else w == sub
            case 2 => n.Done? && w == Done(n.cursor, [])
            case 3 =>
              if p + 12 > |b| || (IsCells(b, t, p) && p + 16 > |b|) then w == Outside
              else
                && n.Done?
                && w == Prepend(if use then [Call(p, cur)] else [],
                                Walk(b, t, prefix, n.cursor, use, cur,
                                     if IsCells(b, t, p) then CellsAt(b, t, p, next) else next))
            case 4 => n.Done? && w == Walk(b, t, prefix, n.cursor, use, cur, next)
            case 9 => w == Done(p, [])
            case _ => w == Aborted
  {
  }

  /** The recursive `for_each_prop_in_node`, with the calls of the callback as its result. */
  method ForEachPropInNode(b: seq<Byte>, t: seq<Byte>, prefix: seq<Byte>, node: nat, useCallback: bool, cur: CellSize)
    returns (r: Result)
    ensures r == Walk(b, t, prefix, node, useCallback, cur, DEFAULT)
    decreases |b| - node
  {
    var p, next, calls := node, DEFAULT, [];
    PrependTwice([], [], Walk(b, t, prefix, p, useCallback, cur, next));
    hide Walk, Next, StringIs, MatchesAt, StrLen, PadLen;
    while p + 4 <= |b|
      invariant p >= node
      invariant Walk(b, t, prefix, node, useCallback, cur, DEFAULT)
                == Prepend(calls, Walk(b, t, prefix, p, useCallback, cur, next))
      decreases |b| - p
    {
      WalkEntry(b, t, prefix, p, useCallback, cur, next);
      var token := Word(b, p);
      if token == BEGIN_NODE {
        var matches := MatchesAt(b, p + 4, prefix);
        var step := IncrementFdtStruct(b, p);
        if !step.Done? {
          return step;
        }
        var sub := ForEachPropInNode(b, t, prefix, step.cursor, matches, next);
        if !sub.Done? {
          return sub;
        }
        PrependTwice(calls, sub.calls, Walk(b, t, prefix, sub.cursor, useCallback, cur, next));
        p, calls := sub.cursor, calls + sub.calls;
      } else if token == PROP {
        if p + 12 > |b| || (IsCells(b, t, p) && p + 16 > |b|) {
          return Outside;
        }
        if StringIs(t, Word(b, p + 8), Chars(ADDRESS_CELLS)) {
          next := next.(address := Word(b, p + 12));
        } else if StringIs(t, Word(b, p + 8), Chars(SIZE_CELLS)) {
          next := next.(size := Word(b, p + 12));
        }
        var step := IncrementFdtStruct(b, p);
        PrependTwice(calls, if useCallback then [Call(p, cur)] else [],
                     Walk(b, t, prefix, step.cursor, useCallback, cur, next));
        if useCallback {
          calls := calls + [Call(p, cur)];
        }
        p := step.cursor;
      } else if token == NOP {
        var step := IncrementFdtStruct(b, p);
        p := step.cursor;
      } else if token == END_NODE {
        var step := IncrementFdtStruct(b, p);
        return Done(step.cursor, calls);
      } else if token == END {
        return Done(p, calls);
      } else {
        return Aborted;
      }
    }
    WalkOutside(b, t, prefix, p, useCallback, cur, next);
    return Outside;
  }

  lemma WalkOutside(b: seq<Byte>, t: seq<Byte>, prefix: seq<Byte>, p: nat, use: bool, cur: CellSize, next: CellSize)
    requires p + 4 > |b|
    ensures Walk(b, t, prefix, p, use, cur, next) == Outside
  {
  }

  /** The one the kernel calls: from the start of the structure block. */
  method ForEachProp(b: seq<Byte>, t: seq<Byte>, prefix: seq<Byte>) returns (r: Result)
    ensures r == Walk(b, t, prefix, 0, false, DEFAULT, DEFAULT)
  {
    r := ForEachPropInNode(b, t, prefix, 0, false, DEFAULT);
  }

  // ---------- Trees and their encoding ----------

  /** What is between the begin and the end of a node, in order. */
  datatype Body =
    | Stop
    | Nop(rest: Body)
    | Prop(nameoff: nat, value: seq<Byte>, rest: Body)
    | Sub(name: seq<Byte>, body: Body, rest: Body)

  function Bytes(n: nat): (w: seq<Byte>)
    requires n < 0x1_0000_0000
    ensures |w| == 4
  {
    [n / 0x100_0000, n / 0x1_0000 % 256, n / 0x100 % 256, n % 256]
  }

  function Zeros(n: nat): (z: seq<Byte>)
    ensures |z| == n
  {
    seq(n, _ => 0)
  }

  predicate Named(t: seq<Byte>, nameoff: nat, s: string)
    requires forall i :: 0 <= i < |s| ==> s[i] as int < 256
  {
    StringIs(t, nameoff, Chars(s))
  }

  predicate CellsProp(t: seq<Byte>, nameoff: nat) { Named(t, nameoff, ADDRESS_CELLS) || Named(t, nameoff, SIZE_CELLS) }

  /** The names end where they should, properties come before nodes, and cell sizes are one word. */
  predicate WellFormed(t: seq<Byte>, body: Body, props: bool) {
    match body
    case Stop => true
    case Nop(rest) => WellFormed(t, rest, props)
    case Prop(nameoff, value, rest) =>
      && props && nameoff < 0x1_0000_0000 && |value| < 0x1_0000_0000 && (CellsProp(t, nameoff) ==> |value| == 4)
      && WellFormed(t, rest, true)
    case Sub(name, b, rest) =>
      && (forall i :: 0 <= i < |name| ==> name[i] != 0)
      && WellFormed(t, b, true) && WellFormed(t, rest, false)
  }

  function PropBytes(nameoff: nat, value: seq<Byte>): (s: seq<Byte>)
    requires nameoff < 0x1_0000_0000 && |value| < 0x1_0000_0000
    ensures |s| == 12 + PadLen(|value|)
  {
    Bytes(PROP) + Bytes(|value|) + Bytes(nameoff) + value + Zeros(PadLen(|value|) - |value|)
  }

  function HeadBytes(name: seq<Byte>): (s: seq<Byte>)
    ensures |s| == 4 + PadLen(|name| + 1)
  {
    Bytes(BEGIN_NODE) + name + [0] + Zeros(PadLen(|name| + 1) - (|name| + 1))
  }

  /** An entry takes whole words, and no more than it needs: the value of a property, and the name of a
      node with the zero that ends it. */
  lemma EntryLengths(nameoff: nat, value: seq<Byte>, name: seq<Byte>)
    requires nameoff < 0x1_0000_0000 && |value| < 0x1_0000_0000
    ensures var n := |PropBytes(nameoff, value)|; 12 + |value| <= n < 12 + |value| + 4 && n % 4 == 0
    ensures var n := |HeadBytes(name)|; 4 + |name| + 1 <= n < 4 + |name| + 5 && n % 4 == 0
  {
    PadLenIs(|value|);
    PadLenIs(|name| + 1);
    hide PadLen;
  }

  function Encode(t: seq<Byte>, body: Body, props: bool): seq<Byte>
    requires WellFormed(t, body, props)
  {
    match body
    case Stop => []
    case Nop(rest) => Bytes(NOP) + Encode(t, rest, props)
    case Prop(nameoff, value, rest) => PropBytes(nameoff, value) + Encode(t, rest, true)
    case Sub(name, b, rest) => HeadBytes(name) + (Encode(t, b, true) + (Bytes(END_NODE) + Encode(t, rest, false)))
  }

  // ---------- What the walk should do ----------

  /** What a property makes of the cell sizes for the nodes below. */
  function CellsWith(t: seq<Byte>, nameoff: nat, value: seq<Byte>, c: CellSize): CellSize {
    if |value| < 4 then c
    else if Named(t, nameoff, ADDRESS_CELLS) then c.(address := Word(value, 0))
    else if Named(t, nameoff, SIZE_CELLS) then c.(size := Word(value, 0))
    else c
  }

  /** The cell sizes a node sets for the nodes in it, beginning with `c`. */
  function CellsOf(t: seq<Byte>, body: Body, c: CellSize): CellSize {
    match body
    case Stop => c
    case Nop(rest) => CellsOf(t, rest, c)
    case Prop(nameoff, value, rest) => CellsOf(t, rest, CellsWith(t, nameoff, value, c))
    case Sub(_, _, rest) => CellsOf(t, rest, c)
  }

  /** The direct properties of the nodes with the prefix, in document order: those of this node if
      `use`, with the cell sizes `cur` of the node above; and those of the nodes in it, with `mine`. */
  function Expected(t: seq<Byte>, prefix: seq<Byte>, body: Body, at: nat, props: bool, use: bool, cur: CellSize,
      mine: CellSize): seq<Call>
    requires WellFormed(t, body, props)
  {
    match body
    case Stop => []
    case Nop(rest) => Expected(t, prefix, rest, at + 4, props, use, cur, mine)
    case Prop(nameoff, value, rest) =>
      (if use then [Call(at, cur)] else [])
      + Expected(t, prefix, rest, at + |PropBytes(nameoff, value)|, true, use, cur, mine)
    case Sub(name, b, rest) =>
      var inside := at + |HeadBytes(name)|;
      Expected(t, prefix, b, inside, true, prefix <= name, mine, CellsOf(t, b, DEFAULT))
      + Expected(t, prefix, rest, inside + |Encode(t, b, true)| + 4, false, use, cur, mine)
  }

  lemma {:induction false} NoMoreCells(t: seq<Byte>, body: Body, c: CellSize)
    requires WellFormed(t, body, false)
    ensures CellsOf(t, body, c) == c
    decreases body
  {
    match body
    case Stop =>
    case Nop(rest) => NoMoreCells(t, rest, c);
    case Sub(_, _, rest) => NoMoreCells(t, rest, c);
    case Prop(_, _, _) =>
  }

  // ---------- Reading what was encoded ----------

  lemma WordOfBytes(b: seq<Byte>, p: nat, n: nat)
    requires n < 0x1_0000_0000 && MatchesAt(b, p, Bytes(n))
    ensures p + 4 <= |b| && Word(b, p) == n
  {
    var w := Bytes(n);
    assert forall i :: 0 <= i < 4 ==> b[p + i] == b[p..p + 4][i] == w[i];
    assert b[p + 0] == w[0] && b[p + 1] == w[1] && b[p + 2] == w[2] && b[p + 3] == w[3];
    Digits(n);
  }

  lemma Digits(n: nat)
    ensures n / 0x100_0000 * 0x100_0000 + n / 0x1_0000 % 256 * 0x1_0000 + n / 0x100 % 256 * 0x100 + n % 256 == n
  {
    LastDigit(n);
    LastDigit(n / 0x100);
    LastDigit(n / 0x1_0000);
    assert n / 0x100 / 0x100 == n / 0x1_0000;
    assert n / 0x1_0000 / 0x100 == n / 0x100_0000;
  }

  lemma LastDigit(n: nat)
    ensures n == n / 0x100 * 0x100 + n % 0x100
  {
  }

  lemma Split(b: seq<Byte>, p: nat, x: seq<Byte>, y: seq<Byte>)
    requires MatchesAt(b, p, x + y)
    ensures MatchesAt(b, p, x) && MatchesAt(b, p + |x|, y)
  {
    var s := b[p..p + |x + y|];
    assert s[..|x|] == x && s[|x|..] == y;
    assert s[..|x|] == b[p..p + |x|] && s[|x|..] == b[p + |x|..p + |x| + |y|];
  }

  lemma PropAt(b: seq<Byte>, p: nat, nameoff: nat, value: seq<Byte>)
    requires nameoff < 0x1_0000_0000 && |value| < 0x1_0000_0000 && MatchesAt(b, p, PropBytes(nameoff, value))
    ensures p + 12 + PadLen(|value|) <= |b| && Word(b, p) == PROP && Word(b, p + 4) == |value| &&
        Word(b, p + 8) == nameoff
    ensures |value| >= 4 ==> Word(b, p + 12) == Word(value, 0)
    ensures var q := Next(b, p).cursor;
            Next(b, p) == Done(p + |PropBytes(nameoff, value)|, [])
            && p + 12 + |value| <= q < p + 16 + |value| && (q - p) % 4 == 0
  {
    EntryLengths(nameoff, value, []);
    var pad := Zeros(PadLen(|value|) - |value|);
    var x, y, z := Bytes(PROP), Bytes(|value|), Bytes(nameoff);
    Split(b, p, x + y + z + value, pad);
    Split(b, p, x + y + z, value);
    Split(b, p, x + y, z);
    Split(b, p, x, y);
    WordOfBytes(b, p, PROP);
    WordOfBytes(b, p + 4, |value|);
    WordOfBytes(b, p + 8, nameoff);
    if |value| >= 4 {
      assert forall i :: 0 <= i < 4 ==> b[p + 12 + i] == b[p + 12..p + 12 + |value|][i] == value[i];
      assert b[p + 12 + 0] == value[0] && b[p + 12 + 1] == value[1] && b[p + 12 + 2] == value[2] &&
        b[p + 12 + 3] == value[3];
    }
  }

  lemma HeadAt(b: seq<Byte>, p: nat, name: seq<Byte>, prefix: seq<Byte>)
    requires MatchesAt(b, p, HeadBytes(name))
    requires (forall i :: 0 <= i < |name| ==> name[i] != 0) && (forall i :: 0 <= i < |prefix| ==> prefix[i] != 0)
    ensures p + 4 <= |b| && Word(b, p) == BEGIN_NODE && Next(b, p) == Done(p + |HeadBytes(name)|, [])
    ensures var q := Next(b, p).cursor; p + 4 + |name| + 1 <= q < p + 4 + |name| + 5 && (q - p) % 4 == 0
    ensures MatchesAt(b, p + 4, prefix) <==> prefix <= name
  {
    HeadRead(b, p, name, prefix);
    hide *;
    EntryLengths(0, [], name);
  }

  lemma HeadRead(b: seq<Byte>, p: nat, name: seq<Byte>, prefix: seq<Byte>)
    requires MatchesAt(b, p, HeadBytes(name))
    requires (forall i :: 0 <= i < |name| ==> name[i] != 0) && (forall i :: 0 <= i < |prefix| ==> prefix[i] != 0)
    ensures p + 4 <= |b| && Word(b, p) == BEGIN_NODE && Next(b, p) == Done(p + |HeadBytes(name)|, [])
    ensures MatchesAt(b, p + 4, prefix) <==> prefix <= name
  {
    var pad := Zeros(PadLen(|name| + 1) - (|name| + 1));
    Split(b, p, Bytes(BEGIN_NODE) + name + [0], pad);
    Split(b, p, Bytes(BEGIN_NODE) + name, [0]);
    Split(b, p, Bytes(BEGIN_NODE), name);
    WordOfBytes(b, p, BEGIN_NODE);
    var q := p + 4;
    assert b[q + |name|] == b[q + |name|..q + |name| + 1][0] == 0;
    assert forall i :: 0 <= i < |name| ==> b[q + i] == b[q..q + |name|][i] == name[i];
    forall i | q <= i < q + |name| ensures b[i] != 0 {
      assert b[q + (i - q)] == name[i - q];
    }
    StrLenIs(b, q, |name|);
    PrefixIs(b, q, name, prefix);
  }

  lemma {:induction false} StrLenIs(b: seq<Byte>, p: nat, n: nat)
    requires p + n < |b| && b[p + n] == 0 && forall i :: p <= i < p + n ==> b[i] != 0
    ensures StrLen(b, p) == n
    decreases n
  {
    if n > 0 {
      StrLenIs(b, p + 1, n - 1);
    }
  }

  lemma PrefixIs(b: seq<Byte>, q: nat, name: seq<Byte>, prefix: seq<Byte>)
    requires q + |name| < |b| && b[q + |name|] == 0
    requires forall i :: 0 <= i < |name| ==> b[q + i] == name[i]
    requires forall i :: 0 <= i < |prefix| ==> prefix[i] != 0
    ensures MatchesAt(b, q, prefix) <==> prefix <= name
  {
    var n := if |prefix| <= |name| then |prefix| else |name|;
    assert b[q..q + n] == name[..n];
    if MatchesAt(b, q, prefix) {
      assert forall i :: 0 <= i < |prefix| ==> prefix[i] == b[q..q + |prefix|][i] == b[q + i];
    }
  }

  // ---------- The walk over an encoding ----------

  /** One level of the definitions. */
  lemma Unfold(t: seq<Byte>, prefix: seq<Byte>, body: Body, p: nat, props: bool, use: bool, cur: CellSize,
      next: CellSize)
    requires WellFormed(t, body, props)
    ensures var (e, mine) := (Encode(t, body, props), CellsOf(t, body, next));
            var calls := Expected(t, prefix, body, p, props, use, cur, mine);
            match body
            case Stop => e == [] && mine == next && calls == []
            case Nop(rest) =>
              && WellFormed(t, rest, props) && e == Bytes(NOP) + Encode(t, rest, props) &&
                mine == CellsOf(t, rest, next)
              && calls == Expected(t, prefix, rest, p + 4, props, use, cur, mine)
            case Prop(nameoff, value, rest) =>
              && nameoff < 0x1_0000_0000 && |value| < 0x1_0000_0000 && (CellsProp(t, nameoff) ==> |value| == 4)
              && WellFormed(t, rest, true) && e == PropBytes(nameoff, value) + Encode(t, rest, true)
              && mine == CellsOf(t, rest, CellsWith(t, nameoff, value, next))
              && calls == (if use then [Call(p, cur)] else [])
                          + Expected(t, prefix, rest, p + |PropBytes(nameoff, value)|, true, use, cur, mine)
            case Sub(name, b, rest) =>
              && (forall i :: 0 <= i < |name| ==> name[i] != 0)
              && WellFormed(t, b, true) && WellFormed(t, rest, false) && mine == CellsOf(t, rest, next) == next
              && e == HeadBytes(name) + (Encode(t, b, true) + (Bytes(END_NODE) + Encode(t, rest, false)))
              && var inside := p + |HeadBytes(name)|;
                 calls == Expected(t, prefix, b, inside, true, prefix <= name, next, CellsOf(t, b, DEFAULT))
                          + Expected(t, prefix, rest, inside + |Encode(t, b, true)| + 4, false, use, cur, next)
  {
    hide CellsWith, StringIs, MatchesAt, PadLen, Word, Bytes, PropBytes, HeadBytes, CellsProp, Zeros;
    if body.Sub? {
      NoMoreCells(t, body.rest, next);
    }
  }

  lemma {:induction false} EncodedLength(t: seq<Byte>, body: Body, props: bool)
    requires WellFormed(t, body, props)
    ensures |Encode(t, body, props)| % 4 == 0
    decreases body
  {
    hide *;
    Tokens();
    Unfold(t, [], body, 0, props, false, DEFAULT, DEFAULT);
    match body
    case Stop =>
    case Nop(rest) => EncodedLength(t, rest, props);
    case Prop(nameoff, value, rest) =>
      EncodedLength(t, rest, true);
      EntryLengths(nameoff, value, []);
      Fours(|PropBytes(nameoff, value)|, |Encode(t, rest, true)|);
    case Sub(name, sub, rest) =>
      EncodedLength(t, sub, true);
      EncodedLength(t, rest, false);
      EntryLengths(0, [], name);
      Fours(|Encode(t, sub, true)|, 4 + |Encode(t, rest, false)|);
      Fours(|HeadBytes(name)|, |Encode(t, sub, true)| + (4 + |Encode(t, rest, false)|));
  }

  lemma Fours(a: nat, b: nat)
    requires a % 4 == 0 && b % 4 == 0
    ensures (a + b) % 4 == 0
  {
  }

  lemma Tokens()
    ensures BEGIN_NODE == 1 && END_NODE == 2 && PROP == 3 && NOP == 4 && END == 9
  {
  }

  /** The statement of the induction: the walk at `p` makes the calls expected for the entries of
      `body`, and goes on behind them with the cell sizes they set. */
  ghost predicate Walks(b: seq<Byte>, t: seq<Byte>, prefix: seq<Byte>, p: nat, body: Body, props: bool, use: bool,
      cur: CellSize, next: CellSize)
    requires WellFormed(t, body, props)
  {
    var mine := CellsOf(t, body, next);
    Walk(b, t, prefix, p, use, cur, next)
    == Prepend(Expected(t, prefix, body, p, props, use, cur, mine),
               Walk(b, t, prefix, p + |Encode(t, body, props)|, use, cur, mine))
  }

  lemma NopStep(b: seq<Byte>, t: seq<Byte>, prefix: seq<Byte>, p: nat, rest: Body, props: bool, use: bool,
      cur: CellSize, next: CellSize)
    requires WellFormed(t, rest, props) && MatchesAt(b, p, Bytes(NOP)) &&
        Walks(b, t, prefix, p + 4, rest, props, use, cur, next)
    ensures Walks(b, t, prefix, p, Nop(rest), props, use, cur, next)
  {
    WordOfBytes(b, p, NOP);
    WalkEntry(b, t, prefix, p, use, cur, next);
    assert |Encode(t, Nop(rest), props)| == 4 + |Encode(t, rest, props)|;
  }

  lemma PropStep(b: seq<Byte>, t: seq<Byte>, prefix: seq<Byte>, p: nat, body: Body, props: bool, use: bool,
      cur: CellSize, next: CellSize)
    requires body.Prop? && WellFormed(t, body, props) && MatchesAt(b, p, PropBytes(body.nameoff, body.value))
    requires Walks(b, t, prefix, p + |PropBytes(body.nameoff, body.value)|, body.rest, true, use, cur,
                   CellsWith(t, body.nameoff, body.value, next))
    ensures Walks(b, t, prefix, p, body, props, use, cur, next)
  {
    hide *;
    Tokens();
    var Prop(nameoff, value, rest) := body;
    Unfold(t, prefix, body, p, props, use, cur, next);
    PropAt(b, p, nameoff, value);
    CellsRead(b, t, p, nameoff, value, next);
    WalkEntry(b, t, prefix, p, use, cur, next);
    var q, next' := p + |PropBytes(nameoff, value)|, CellsWith(t, nameoff, value, next);
    var mine := CellsOf(t, rest, next');
    WalksIs(b, t, prefix, q, rest, true, use, cur, next');
    WalksIs(b, t, prefix, p, body, props, use, cur, next);
    PrependTwice(if use then [Call(p, cur)] else [], Expected(t, prefix, rest, q, true, use, cur, mine),
                 Walk(b, t, prefix, q + |Encode(t, rest, true)|, use, cur, mine));
  }

  lemma CellsRead(b: seq<Byte>, t: seq<Byte>, p: nat, nameoff: nat, value: seq<Byte>, next: CellSize)
    requires p + 12 + PadLen(|value|) <= |b| && Word(b, p + 8) == nameoff && (CellsProp(t, nameoff) ==> |value| == 4)
    requires |value| >= 4 ==> Word(b, p + 12) == Word(value, 0)
    ensures p + 12 <= |b| && (IsCells(b, t, p) ==> p + 16 <= |b|)
    ensures (if IsCells(b, t, p) then CellsAt(b, t, p, next) else next) == CellsWith(t, nameoff, value, next)
  {
    hide StringIs, Word;
  }

  lemma SubStep(b: seq<Byte>, t: seq<Byte>, prefix: seq<Byte>, p: nat, body: Body, props: bool, use: bool,
      cur: CellSize, next: CellSize)
    requires body.Sub? && WellFormed(t, body, props) && (forall i :: 0 <= i < |prefix| ==> prefix[i] != 0)
    requires var (inside, e) := (p + |HeadBytes(body.name)|, |Encode(t, body.body, true)|);
             && MatchesAt(b, p, HeadBytes(body.name)) && MatchesAt(b, inside + e, Bytes(END_NODE))
             && Walks(b, t, prefix, inside, body.body, true, prefix <= body.name, next, DEFAULT)
             && Walks(b, t, prefix, inside + e + 4, body.rest, false, use, cur, next)
    ensures Walks(b, t, prefix, p, body, props, use, cur, next)
  {
    hide *;
    Tokens();
    var Sub(name, sub, rest) := body;
    Unfold(t, prefix, body, p, props, use, cur, next);
    HeadAt(b, p, name, prefix);
    WalkEntry(b, t, prefix, p, use, cur, next);
    var inside, e := p + |HeadBytes(name)|, |Encode(t, sub, true)|;
    WordOfBytes(b, inside + e, END_NODE);
    WalkEntry(b, t, prefix, inside + e, prefix <= name, next, CellsOf(t, sub, DEFAULT));
    var calls := Expected(t, prefix, sub, inside, true, prefix <= name, next, CellsOf(t, sub, DEFAULT));
    NextOfEnd(b, inside + e);
    PrependDone(calls, inside + e + 4);
    WalksIs(b, t, prefix, inside, sub, true, prefix <= name, next, DEFAULT);
    WalksIs(b, t, prefix, inside + e + 4, rest, false, use, cur, next);
    WalksIs(b, t, prefix, p, body, props, use, cur, next);
    PrependTwice(calls, Expected(t, prefix, rest, inside + e + 4, false, use, cur, next),
                 Walk(b, t, prefix, inside + e + 4 + |Encode(t, rest, false)|, use, cur, next));
  }

  lemma NextOfEnd(b: seq<Byte>, p: nat)
    requires p + 4 <= |b| && Word(b, p) == END_NODE
    ensures Next(b, p) == Done(p + 4, [])
  {
  }

  lemma PrependDone(calls: seq<Call>, q: nat)
    ensures Prepend(calls, Done(q, [])) == Done(q, calls)
  {
  }

  lemma WalksIs(b: seq<Byte>, t: seq<Byte>, prefix: seq<Byte>, p: nat, body: Body, props: bool, use: bool,
      cur: CellSize, next: CellSize)
    requires WellFormed(t, body, props)
    ensures var mine := CellsOf(t, body, next);
            Walks(b, t, prefix, p, body, props, use, cur, next) <==>
            Walk(b, t, prefix, p, use, cur, next)
            == Prepend(Expected(t, prefix, body, p, props, use, cur, mine),
                       Walk(b, t, prefix, p + |Encode(t, body, props)|, use, cur, mine))
  {
  }

  lemma {:induction false} WalkBody(b: seq<Byte>, t: seq<Byte>, prefix: seq<Byte>, p: nat, body: Body, props: bool,
      use: bool, cur: CellSize, next: CellSize)
    requires WellFormed(t, body, props) && MatchesAt(b, p, Encode(t, body, props))
    requires forall i :: 0 <= i < |prefix| ==> prefix[i] != 0
    ensures Walks(b, t, prefix, p, body, props, use, cur, next)
    decreases body
  {
    hide *;
    Tokens();
    Unfold(t, prefix, body, p, props, use, cur, next);
    match body
    case Stop => StopWalks(b, t, prefix, p, props, use, cur, next);
    case Nop(rest) =>
      Split(b, p, Bytes(NOP), Encode(t, rest, props));
      WalkBody(b, t, prefix, p + 4, rest, props, use, cur, next);
      NopStep(b, t, prefix, p, rest, props, use, cur, next);
    case Prop(nameoff, value, rest) =>
      Split(b, p, PropBytes(nameoff, value), Encode(t, rest, true));
      WalkBody(b, t, prefix, p + |PropBytes(nameoff, value)|, rest, true, use, cur, CellsWith(t, nameoff, value, next));
      PropStep(b, t, prefix, p, body, props, use, cur, next);
    case Sub(name, sub, rest) =>
      var inside, e := p + |HeadBytes(name)|, Encode(t, sub, true);
      Split(b, p, HeadBytes(name), e + (Bytes(END_NODE) + Encode(t, rest, false)));
      Split(b, inside, e, Bytes(END_NODE) + Encode(t, rest, false));
      Split(b, inside + |e|, Bytes(END_NODE), Encode(t, rest, false));
      WalkBody(b, t, prefix, inside, sub, true, prefix <= name, next, DEFAULT);
      WalkBody(b, t, prefix, inside + |e| + 4, rest, false, use, cur, next);
      SubStep(b, t, prefix, p, body, props, use, cur, next);
  }

  lemma StopWalks(b: seq<Byte>, t: seq<Byte>, prefix: seq<Byte>, p: nat, props: bool, use: bool, cur: CellSize,
      next: CellSize)
    ensures Walks(b, t, prefix, p, Stop, props, use, cur, next)
  {
    PrependTwice([], [], Walk(b, t, prefix, p, use, cur, next));
  }

  /** On the encoding of any tree, whatever comes behind its end, the walk makes exactly the calls
      expected, and leaves the cursor, which is aligned, on the end token. */
  lemma WalkFindsProperties(t: seq<Byte>, prefix: seq<Byte>, top: Body, behind: seq<Byte>)
    requires WellFormed(t, top, false) && forall i :: 0 <= i < |prefix| ==> prefix[i] != 0
    ensures var b := Encode(t, top, false) + Bytes(END) + behind;
            && Walk(b, t, prefix, 0, false, DEFAULT, DEFAULT)
               == Done(|Encode(t, top, false)|, Expected(t, prefix, top, 0, false, false, DEFAULT, DEFAULT))
            && |Encode(t, top, false)| % 4 == 0 && Word(b, |Encode(t, top, false)|) == END
  {
    var e := Encode(t, top, false);
    var b := e + Bytes(END) + behind;
    assert b[0..|e|] == e && b[|e|..|e| + 4] == Bytes(END);
    WalkBody(b, t, prefix, 0, top, false, false, DEFAULT, DEFAULT);
    WordOfBytes(b, |e|, END);
    WalkEntry(b, t, prefix, |e|, false, DEFAULT, DEFAULT);
    NoMoreCells(t, top, DEFAULT);
    EncodedLength(t, top, false);
    var calls := Expected(t, prefix, top, 0, false, false, DEFAULT, DEFAULT);
    assert calls + [] == calls;
  }

  // ---------- An instance in literal bytes ----------

  /** The strings of the instance: the names are at 0, 15 and 27. */
  function Strings(): seq<Byte> { Chars("#address-cells") + [0] + Chars("#size-cells") + [0] + Chars("reg") + [0] }

  const MEMORY: seq<Byte> := [109, 101, 109, 111, 114, 121]

  /** A register of five bytes. */
  function InnerBytes(): seq<Byte> { [0, 0, 0, 3, 0, 0, 0, 5, 0, 0, 0, 27] + [1, 2, 3, 4, 5, 0, 0, 0] }

  /** A register of two words, and a node `memory` with the register above. */
  function MemoryBytes(): seq<Byte> {
    [0, 0, 0, 3, 0, 0, 0, 8, 0, 0, 0, 27] + [9, 8, 7, 6, 5, 4, 3, 2]
    + ([0, 0, 0, 1, 109, 101, 109, 111, 114, 121, 0, 0] + InnerBytes() + [0, 0, 0, 2])
  }

  /** The cell sizes are 1 and 3, and a node `memory` with the entries above. */
  function RootBytes(): seq<Byte> {
    [0, 0, 0, 3, 0, 0, 0, 4, 0, 0, 0, 0, 0, 0, 0, 1] + ([0, 0, 0, 3, 0, 0, 0, 4, 0, 0, 0, 15, 0, 0, 0, 3]
    + ([0, 0, 0, 1, 109, 101, 109, 111, 114, 121, 0, 0] + MemoryBytes() + [0, 0, 0, 2]))
  }

  function BlockBytes(): seq<Byte> { [0, 0, 0, 1, 0, 0, 0, 0] + RootBytes() + [0, 0, 0, 2] }

  function Inner(): Body { Prop(27, [1, 2, 3, 4, 5], Stop) }

  function Memory(): Body { Prop(27, [9, 8, 7, 6, 5, 4, 3, 2], Sub(MEMORY, Inner(), Stop)) }

  function Root(): Body { Prop(0, [0, 0, 0, 1], Prop(15, [0, 0, 0, 3], Sub(MEMORY, Memory(), Stop))) }

  lemma StringsAt()
    ensures Named(Strings(), 0, ADDRESS_CELLS) && !Named(Strings(), 0, SIZE_CELLS)
    ensures Named(Strings(), 15, SIZE_CELLS) && !Named(Strings(), 15, ADDRESS_CELLS)
    ensures !Named(Strings(), 27, SIZE_CELLS) && !Named(Strings(), 27, ADDRESS_CELLS)
  {
    var t := Strings();
    assert t[0..15] == Chars("#address-cells") + [0];
    assert t[15..27] == Chars("#size-cells") + [0];
    assert t[0..12][1] != Chars(SIZE_CELLS)[1];
  }

  /** A node with nothing behind it. */
  lemma SubEncoded(t: seq<Byte>, name: seq<Byte>, body: Body, props: bool, head: seq<Byte>)
    requires WellFormed(t, body, true) && (forall i :: 0 <= i < |name| ==> name[i] != 0) && head == HeadBytes(name)
    ensures WellFormed(t, Sub(name, body, Stop), props)
    ensures Encode(t, Sub(name, body, Stop), props) == head + Encode(t, body, true) + [0, 0, 0, 2]
  {
    var e := Encode(t, body, true);
    hide HeadBytes;
    assert Encode(t, Sub(name, body, Stop), props) == head + (e + (Bytes(END_NODE) + []));
    assert Bytes(END_NODE) + [] == [0, 0, 0, 2];
  }

  lemma PropEncoded(t: seq<Byte>, nameoff: nat, value: seq<Byte>, rest: Body, entry: seq<Byte>)
    requires nameoff < 0x1_0000_0000 && |value| < 0x1_0000_0000 && (CellsProp(t, nameoff) ==> |value| == 4)
    requires WellFormed(t, rest, true) && entry == PropBytes(nameoff, value)
    ensures WellFormed(t, Prop(nameoff, value, rest), true)
    ensures Encode(t, Prop(nameoff, value, rest), true) == entry + Encode(t, rest, true)
  {
    hide PropBytes, CellsProp;
  }

  lemma HeadsOf()
    ensures HeadBytes(MEMORY) == [0, 0, 0, 1, 109, 101, 109, 111, 114, 121, 0, 0]
    ensures HeadBytes([]) == [0, 0, 0, 1, 0, 0, 0, 0]
  {
  }

  lemma InnerEncoded()
    ensures WellFormed(Strings(), Inner(), true) && Encode(Strings(), Inner(), true) == InnerBytes()
  {
    StringsAt();
    hide Named;
    PropEncoded(Strings(), 27, [1, 2, 3, 4, 5], Stop, InnerBytes());
    assert InnerBytes() + [] == InnerBytes();
  }

  lemma MemoryEncoded()
    ensures WellFormed(Strings(), Memory(), true) && Encode(Strings(), Memory(), true) == MemoryBytes()
  {
    StringsAt();
    InnerEncoded();
    HeadsOf();
    SubEncoded(Strings(), MEMORY, Inner(), true, HeadBytes(MEMORY));
    PropEncoded(Strings(), 27, [9, 8, 7, 6, 5, 4, 3, 2], Sub(MEMORY, Inner(), Stop),
                [0, 0, 0, 3, 0, 0, 0, 8, 0, 0, 0, 27] + [9, 8, 7, 6, 5, 4, 3, 2]);
    hide Named, Inner, InnerBytes, HeadBytes, Encode, WellFormed, CellsProp;
  }

  lemma CellsEntries()
    ensures PropBytes(0, [0, 0, 0, 1]) == [0, 0, 0, 3, 0, 0, 0, 4, 0, 0, 0, 0, 0, 0, 0, 1]
    ensures PropBytes(15, [0, 0, 0, 3]) == [0, 0, 0, 3, 0, 0, 0, 4, 0, 0, 0, 15, 0, 0, 0, 3]
  {
  }

  lemma RootIs()
    ensures Root() == Prop(0, [0, 0, 0, 1], Prop(15, [0, 0, 0, 3], Sub(MEMORY, Memory(), Stop)))
    ensures RootBytes() == [0, 0, 0, 3, 0, 0, 0, 4, 0, 0, 0, 0, 0, 0, 0, 1]
                           + ([0, 0, 0, 3, 0, 0, 0, 4, 0, 0, 0, 15, 0, 0, 0, 3]
                              + ([0, 0, 0, 1, 109, 101, 109, 111, 114, 121, 0, 0] + MemoryBytes() + [0, 0, 0, 2]))
    ensures forall i :: 0 <= i < |MEMORY| ==> MEMORY[i] != 0
  {
  }

  lemma RootEncoded()
    ensures WellFormed(Strings(), Root(), true) && Encode(Strings(), Root(), true) == RootBytes()
  {
    hide *;
    RootIs();
    MemoryEncoded();
    HeadsOf();
    CellsEntries();
    var node, one, three := Sub(MEMORY, Memory(), Stop), [0, 0, 0, 1], [0, 0, 0, 3];
    SubEncoded(Strings(), MEMORY, Memory(), true, HeadBytes(MEMORY));
    PropEncoded(Strings(), 15, three, node, PropBytes(15, three));
    PropEncoded(Strings(), 0, one, Prop(15, three, node), PropBytes(0, one));
  }

  lemma InnerExpected()
    requires WellFormed(Strings(), Inner(), true)
    ensures CellsOf(Strings(), Inner(), CellSize(2, 1)) == CellSize(2, 1)
    ensures Expected(Strings(), MEMORY, Inner(), 84, true, true, CellSize(2, 1), CellSize(2, 1))
            == [Call(84, CellSize(2, 1))]
  {
    StringsAt();
    hide Named;
  }

  lemma MemoryExpected()
    requires WellFormed(Strings(), Memory(), true)
    ensures CellsOf(Strings(), Memory(), CellSize(2, 1)) == CellSize(2, 1)
    ensures Expected(Strings(), MEMORY, Memory(), 52, true, true, CellSize(1, 3), CellSize(2, 1))
            == [Call(52, CellSize(1, 3)), Call(84, CellSize(2, 1))]
  {
    StringsAt();
    InnerEncoded();
    InnerExpected();
    HeadsOf();
    hide Named, Inner, HeadBytes;
  }

  lemma NodeExpected()
    requires WellFormed(Strings(), Sub(MEMORY, Memory(), Stop), true)
    ensures CellsOf(Strings(), Sub(MEMORY, Memory(), Stop), CellSize(1, 3)) == CellSize(1, 3)
    ensures Expected(Strings(), MEMORY, Sub(MEMORY, Memory(), Stop), 40, true, false, CellSize(2, 1), CellSize(1, 3))
            == [Call(52, CellSize(1, 3)), Call(84, CellSize(2, 1))]
  {
    MemoryEncoded();
    MemoryExpected();
    HeadsOf();
    hide Memory, HeadBytes;
  }

  lemma RootExpected()
    requires WellFormed(Strings(), Root(), true)
    ensures CellsOf(Strings(), Root(), CellSize(2, 1)) == CellSize(1, 3)
    ensures Expected(Strings(), MEMORY, Root(), 8, true, false, CellSize(2, 1), CellSize(1, 3))
            == [Call(52, CellSize(1, 3)), Call(84, CellSize(2, 1))]
  {
    hide *;
    RootIs();
    CellsEntries();
    CellsSet();
    var t, c, node := Strings(), CellSize(2, 1), Sub(MEMORY, Memory(), Stop);
    Unfold(t, MEMORY, Root(), 8, true, false, c, c);
    Unfold(t, MEMORY, Prop(15, [0, 0, 0, 3], node), 24, true, false, c, CellSize(1, 1));
    NodeExpected();
  }

  lemma CellsSet()
    ensures CellsWith(Strings(), 0, [0, 0, 0, 1], CellSize(2, 1)) == CellSize(1, 1)
    ensures CellsWith(Strings(), 15, [0, 0, 0, 3], CellSize(1, 1)) == CellSize(1, 3)
  {
    StringsAt();
    hide Named;
    assert Word([0, 0, 0, 1], 0) == 1 && Word([0, 0, 0, 3], 0) == 3;
  }

  lemma BlockIs()
    ensures BlockBytes() == HeadBytes([]) + RootBytes() + [0, 0, 0, 2] && |BlockBytes()| == 116
    ensures BlockBytes() + Bytes(END) + [] == BlockBytes() + [0, 0, 0, 9] && DEFAULT == CellSize(2, 1)
  {
    HeadsOf();
    hide HeadBytes;
  }

  lemma TopExpected()
    requires WellFormed(Strings(), Sub([], Root(), Stop), false)
    ensures Expected(Strings(), MEMORY, Sub([], Root(), Stop), 0, false, false, CellSize(2, 1), CellSize(2, 1))
            == [Call(52, CellSize(1, 3)), Call(84, CellSize(2, 1))]
  {
    RootEncoded();
    RootExpected();
    HeadsOf();
    hide HeadBytes, Root;
  }

  lemma WordsAreBigEndian()
    ensures Word([0x12, 0x34, 0x56, 0x78], 0) == 0x1234_5678
  {
  }

  /** The instance: a register in a node of the root comes with the cell sizes of the root, one in a
      node whose parent sets none with 2 and 1; the cursor skips the padding, and stops at the end. */
  lemma WalkOfBlock()
    ensures var b := BlockBytes() + [0, 0, 0, 9];
            Walk(b, Strings(), MEMORY, 0, false, CellSize(2, 1), CellSize(2, 1))
            == Done(116, [Call(52, CellSize(1, 3)), Call(84, CellSize(2, 1))])
  {
    hide *;
    var top := Sub([], Root(), Stop);
    RootEncoded();
    RootIs();
    BlockIs();
    SubEncoded(Strings(), [], Root(), false, HeadBytes([]));
    WalkFindsProperties(Strings(), MEMORY, top, []);
    TopExpected();
  }
}
