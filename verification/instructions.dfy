/** The instruction model: opcodes, operands, labels, and the contiguous
    pattern search every `Find*` operation of the editor is built on. */
module Instructions {
  import opened Outcomes

  /** A jump target. Labels are minted by the caller's decoder; the editor
      only copies, moves and clears them. */
  datatype Label = Label(id: nat)

  /** A local-variable slot: its `LocalIndex` and an identity distinguishing
      two slot objects that happen to share an index. */
  datatype LocalVar = LocalVar(index: int, id: nat)

  /** The members the editor's canned instruction blocks refer to;
      every other field or method reference is `OtherMember`. */
  datatype MemberRef =
    | PlayerGetter      // Game1.player
    | ProfessionsField  // Farmer.professions
    | ContainsMethod    // NetList<int, NetInt>.Contains
    | RandomField       // Game1.random
    | NextDoubleMethod  // Random.NextDouble
    | NextMethod        // Random.Next(int, int)
    | OtherMember(id: nat)

  /** The opcodes the editor itself emits or inspects. `Ldloc`, `Ldloca` and
      `Stloc` each stand for their long, short (`.s`) and fixed-slot forms;
      every other opcode of the instruction set is `OtherOp`. */
  datatype Opcode =
    | Ldc_I4_0 | Ldc_I4_1 | Ldc_I4_2 | Ldc_I4_3 | Ldc_I4_4
    | Ldc_I4_5 | Ldc_I4_6 | Ldc_I4_7 | Ldc_I4_8
    | Ldc_I4_S | Ldc_I4
    | Brtrue | Brtrue_S | Brfalse | Brfalse_S
    | Call | Callvirt | Ldfld | Ldsfld
    | Ldloc | Ldloca | Stloc
    | OtherOp(code: nat)

  /** The operand of an instruction; `NoOperand` is the source's `null`. */
  datatype Operand =
    | NoOperand
    | IntOperand(n: int)
    | LabelOperand(target: Label)
    | LocalOperand(local: LocalVar)
    | MemberOperand(member: MemberRef)
    | OtherOperand(id: nat)

  /** One instruction: opcode, operand, and the labels marking it as a jump target. */
  datatype Instr = Instr(opcode: Opcode, operand: Operand, labels: seq<Label>)

  /** A search pattern is a sequence of instructions used as templates. */
  type Pattern = seq<Instr>

  /** A template matches an instruction when the opcodes are equal and, if the
      template carries an operand, the operands are equal too. Labels are ignored. */
  predicate Matches(t: Instr, x: Instr)
  {
    t.opcode == x.opcode && (t.operand == NoOperand || t.operand == x.operand)
  }

  /** `p` occurs in `list` starting at index `i`. */
  predicate MatchesAt(list: seq<Instr>, p: Pattern, i: int)
  {
    0 <= i && i + |p| <= |list| &&
    forall k :: 0 <= k < |p| ==> Matches(p[k], list[i + k])
  }

  /** `i` is the least occurrence of `p` at or after `start`. */
  predicate FirstMatchFrom(list: seq<Instr>, p: Pattern, start: int, i: int)
  {
    start <= i && MatchesAt(list, p, i) &&
    forall j :: start <= j < i ==> !MatchesAt(list, p, j)
  }

  /** `i` is the greatest occurrence of `p` that ends at or before `bound`
      (that is, `i + |p| <= bound`). */
  predicate LastMatchBefore(list: seq<Instr>, p: Pattern, bound: int, i: int)
  {
    i + |p| <= bound && MatchesAt(list, p, i) &&
    forall j :: i < j && j + |p| <= bound ==> !MatchesAt(list, p, j)
  }

  /** `n` fits a signed 32-bit integer, the width of the source's `int`. */
  predicate IsInt32(n: int)
  {
    -0x8000_0000 <= n < 0x8000_0000
  }

  /** Two's-complement wrap-around of an integer to 32 bits. */
  function Wrap32(n: int): (r: int)
    ensures IsInt32(r)
    ensures IsInt32(n) ==> r == n
    ensures (r - n) % 0x1_0000_0000 == 0
  {
    (n + 0x8000_0000) % 0x1_0000_0000 - 0x8000_0000
  }

  /** The integer an integer-constant load pushes, following the operand forms
      of section III.3.40 of ECMA-335: `ldc.i4.0` .. `ldc.i4.8` take no operand,
      `ldc.i4.s` takes a signed 8-bit operand and `ldc.i4` a 32-bit one.
      `None` for anything else, including an operand that does not fit. */
  function LoadedValue(x: Instr): Option<int>
  {
    match x.opcode
    case Ldc_I4_0 => if x.operand == NoOperand then Some(0) else None
    case Ldc_I4_1 => if x.operand == NoOperand then Some(1) else None
    case Ldc_I4_2 => if x.operand == NoOperand then Some(2) else None
    case Ldc_I4_3 => if x.operand == NoOperand then Some(3) else None
    case Ldc_I4_4 => if x.operand == NoOperand then Some(4) else None
    case Ldc_I4_5 => if x.operand == NoOperand then Some(5) else None
    case Ldc_I4_6 => if x.operand == NoOperand then Some(6) else None
    case Ldc_I4_7 => if x.operand == NoOperand then Some(7) else None
    case Ldc_I4_8 => if x.operand == NoOperand then Some(8) else None
    case Ldc_I4_S =>
      if x.operand.IntOperand? && -128 <= x.operand.n <= 127 then Some(x.operand.n) else None
    case Ldc_I4 =>
      if x.operand.IntOperand? && IsInt32(x.operand.n) then Some(x.operand.n) else None
    case _ => None
  }

  /** Forward pattern search: the least index at or after `start` where `p`
      occurs, or -1 when there is none. */
  function IndexOf(list: seq<Instr>, p: Pattern, start: int): (r: int)
    ensures r == -1 || FirstMatchFrom(list, p, start, r)
    ensures r == -1 ==> forall j :: start <= j ==> !MatchesAt(list, p, j)
    decreases |list| - start
  {
    if |list| - |p| < start then -1
    else if MatchesAt(list, p, start) then start
    else IndexOf(list, p, start + 1)
  }

  /** Instruction `i` carries label `l`. */
  predicate HasLabel(list: seq<Instr>, l: Label, i: int)
  {
    0 <= i < |list| && l in list[i].labels
  }

  /** Label search: the least index at or after `start` whose instruction
      carries `l`, or -1 when there is none. */
  function IndexOfLabel(list: seq<Instr>, l: Label, start: int): (r: int)
    ensures r != -1 ==> start <= r && HasLabel(list, l, r)
    ensures r != -1 ==> forall j :: start <= j < r ==> !HasLabel(list, l, j)
    ensures r == -1 ==> forall j :: start <= j ==> !HasLabel(list, l, j)
    decreases |list| - start
  {
    if |list| <= start then -1
    else if HasLabel(list, l, start) then start
    else IndexOfLabel(list, l, start + 1)
  }

  /** The sequence in reverse order. */
  function Reverse<T>(s: seq<T>): (r: seq<T>)
    ensures |r| == |s|
    ensures forall i :: 0 <= i < |s| ==> r[i] == s[|s| - 1 - i]
  {
    seq(|s|, i requires 0 <= i < |s| => s[|s| - 1 - i])
  }

  lemma ReverseReverse<T>(s: seq<T>)
    ensures Reverse(Reverse(s)) == s
  {
    var rr := Reverse(Reverse(s));
    assert |rr| == |s|;
    forall i | 0 <= i < |s| ensures rr[i] == s[i] {
      assert rr[i] == Reverse(s)[|s| - 1 - i];
    }
  }

  /** One direction of `ReversedOccurrence`, for a single position. */
  lemma ReversedOccurrenceAt(list: seq<Instr>, p: Pattern, j: int)
    requires MatchesAt(Reverse(list), Reverse(p), j)
    ensures MatchesAt(list, p, |list| - j - |p|)
  {
    var rl, rp, n, m := Reverse(list), Reverse(p), |list|, |p|;
    var i := n - j - m;
    forall k | 0 <= k < m ensures Matches(p[k], list[i + k]) {
      var k' := m - 1 - k;
      assert Matches(rp[k'], rl[j + k']);
      assert rp[k'] == p[k];
      assert rl[j + k'] == list[i + k];
    }
  }

  /** An occurrence of `p` at `i` is an occurrence of the reversed pattern in
      the reversed list at `|list| - i - |p|`, and conversely. */
  lemma ReversedOccurrence(list: seq<Instr>, p: Pattern)
    ensures forall j :: MatchesAt(Reverse(list), Reverse(p), j) ==>
                        MatchesAt(list, p, |list| - j - |p|)
    ensures forall i :: MatchesAt(list, p, i) ==>
                        MatchesAt(Reverse(list), Reverse(p), |list| - i - |p|)
  {
    forall j | MatchesAt(Reverse(list), Reverse(p), j)
      ensures MatchesAt(list, p, |list| - j - |p|)
    {
      ReversedOccurrenceAt(list, p, j);
    }
    forall i | MatchesAt(list, p, i)
      ensures MatchesAt(Reverse(list), Reverse(p), |list| - i - |p|)
    {
      ReverseReverse(list);
      ReverseReverse(p);
      ReversedOccurrenceAt(Reverse(list), Reverse(p), i);
    }
  }

  /** Backward pattern search by reversal: search the reversed pattern in the
      reversed list, starting `|list| - bound` from the far end, and map the
      hit back. The result is the last occurrence of `p` that ends at or before
      `bound`, or -1 when there is none. */
  function LastIndexOf(list: seq<Instr>, p: Pattern, bound: int): (r: int)
    ensures r == -1 <==> forall i :: i + |p| <= bound ==> !MatchesAt(list, p, i)
    ensures r != -1 ==> LastMatchBefore(list, p, bound, r)
  {
    ReversedOccurrence(list, p);
    var j := IndexOf(Reverse(list), Reverse(p), |list| - bound);
    if j < 0 then -1 else |list| - j - |p|
  }

  /** Searching `p` itself (not reversed) in the reversed list, as the legacy
      backward searches do, is the backward search for the reversed pattern. */
  lemma LastIndexOfReversed(list: seq<Instr>, p: Pattern, bound: int)
    ensures var j := IndexOf(Reverse(list), p, |list| - bound);
            LastIndexOf(list, Reverse(p), bound) == if j < 0 then -1 else |list| - j - |p|
  {
    ReverseReverse(p);
  }

  /** Every occurrence of `p` at or after `start`, in increasing order: a
      position-by-position scan, independent of `IndexOf`. */
  function MatchesFrom(list: seq<Instr>, p: Pattern, start: int): seq<int>
    decreases |list| - start
  {
    if |list| < start then []
    else if MatchesAt(list, p, start) then [start] + MatchesFrom(list, p, start + 1)
    else MatchesFrom(list, p, start + 1)
  }

  /** `MatchesFrom` lists exactly the occurrences at or after `start`, each
      once, in strictly increasing order. */
  lemma {:induction false} MatchesFromExact(list: seq<Instr>, p: Pattern, start: int)
    ensures forall k :: 0 <= k < |MatchesFrom(list, p, start)| ==>
              start <= MatchesFrom(list, p, start)[k] &&
              MatchesAt(list, p, MatchesFrom(list, p, start)[k])
    ensures forall k, k' :: 0 <= k < k' < |MatchesFrom(list, p, start)| ==>
              MatchesFrom(list, p, start)[k] < MatchesFrom(list, p, start)[k']
    ensures forall i :: start <= i && MatchesAt(list, p, i) ==> i in MatchesFrom(list, p, start)
    decreases |list| - start
  {
    if |list| < start {
    } else {
      MatchesFromExact(list, p, start + 1);
      var rest := MatchesFrom(list, p, start + 1);
      if MatchesAt(list, p, start) {
        var r := [start] + rest;
        assert MatchesFrom(list, p, start) == r;
        assert forall k :: 1 <= k < |r| ==> r[k] == rest[k - 1];
      }
    }
  }

  /** Skipping to the first occurrence loses nothing: the occurrences from
      `start` are the first one followed by those after it. */
  lemma {:induction false} MatchesFromFirst(list: seq<Instr>, p: Pattern, start: int)
    ensures IndexOf(list, p, start) == -1 ==> MatchesFrom(list, p, start) == []
    ensures IndexOf(list, p, start) != -1 ==>
              MatchesFrom(list, p, start) ==
                [IndexOf(list, p, start)] + MatchesFrom(list, p, IndexOf(list, p, start) + 1)
    decreases |list| - start
  {
    if |list| < start {
      assert MatchesFrom(list, p, start) == [];
    } else if MatchesAt(list, p, start) {
      assert IndexOf(list, p, start) == start;
    } else {
      assert IndexOf(list, p, start) == IndexOf(list, p, start + 1);
      assert MatchesFrom(list, p, start) == MatchesFrom(list, p, start + 1);
      MatchesFromFirst(list, p, start + 1);
    }
  }
}
