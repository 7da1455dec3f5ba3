/** Automatic storage slots of a contract's storage struct. */
module StorageSlots {
  import opened Wrappers
  import opened Numbers
  import opened FieldElement

  const U64_LIMIT: nat := 0x1_0000_0000_0000_0000
  const U128_LIMIT: nat := 0x1_0000_0000_0000_0000_0000_0000_0000_0000

  /** The initializer of a field of the storage constructor: not a call, a call whose slot argument is not a literal,
      or a call with a literal slot. */
  datatype Init = NotACall | NotALiteral | Slot(value: Fr)

  /** Slots that the pass assigns: the low 128 bits of the literal are zero. */
  predicate Automatic(f: Init)
  {
    f.Slot? && f.value % U128_LIMIT == 0
  }

  lemma ReadAsU128(v: Fr)
    ensures ToU128(v) == v % U128_LIMIT
  {
    LowBytes(v);
    Pow2Of128();
  }

  /** The serialized length of the type at a position of the struct, or why there is none. */
  function Length(lens: seq<Result<nat>>, i: nat): (n: nat)
  {
    if i < |lens| && lens[i].Ok? then lens[i].value else 0
  }

  /** The slots handed out before position i. */
  function Before(inits: seq<Init>, lens: seq<Result<nat>>, i: nat): (n: nat)
    requires i <= |inits|
  {
    if i == 0 then 0
    else Before(inits, lens, i - 1) + if Automatic(inits[i - 1]) then Length(lens, i - 1) else 0
  }

  predicate Usable(f: Init, len: Result<nat>)
  {
    f.Slot? && (Automatic(f) ==> len.Ok?)
  }

  /** A struct field for each initializer up to position k, literals everywhere, and lengths where needed. */
  predicate Runs(inits: seq<Init>, lens: seq<Result<nat>>, k: nat)
    requires k <= |inits|
  {
    k <= |lens| && forall i {:trigger inits[i]} :: 0 <= i < k ==> Usable(inits[i], lens[i])
  }

  /** Besides, the u64 counter does not overflow, which panics in a build with overflow checks. */
  predicate Succeeds(inits: seq<Init>, lens: seq<Result<nat>>, k: nat)
    requires k <= |inits|
  {
    k <= |lens| && forall i {:trigger inits[i]} :: 0 <= i < k ==> Fits(inits[i], lens[i], Before(inits, lens, i + 1))
  }

  lemma {:induction false} BeforeMonotone(inits: seq<Init>, lens: seq<Result<nat>>, i: nat, j: nat)
    requires i <= j <= |inits|
    ensures Before(inits, lens, i) <= Before(inits, lens, j)
    decreases j
  {
    if i < j {
      BeforeMonotone(inits, lens, i, j - 1);
    }
  }

  /** The counter never overflows before the position that fails. */
  lemma {:induction false} CounterFits(inits: seq<Init>, lens: seq<Result<nat>>, k: nat)
    requires k <= |inits| && Succeeds(inits, lens, k)
    ensures 1 + Before(inits, lens, k) < U64_LIMIT
  {
    if k > 0 {
      CounterFits(inits, lens, k - 1);
    }
  }

  /** `FieldElement::from(u128::from(slot))`. */
  function FromU64(x: nat): (v: Fr)
  {
    x % P
  }

  lemma CounterIsField(x: nat)
    requires x < U64_LIMIT
    ensures FromU64(x) == x && x % U128_LIMIT == x
  {
    DivModUnique(x, P, 0, x);
    DivModUnique(x, U128_LIMIT, 0, x);
  }

  /** What the pass leaves at position i. */
  function Assigned(inits: seq<Init>, lens: seq<Result<nat>>, i: nat): (f: Init)
    requires i < |inits|
  {
    if Automatic(inits[i]) then Slot(FromU64(1 + Before(inits, lens, i))) else inits[i]
  }

  predicate Fits(f: Init, len: Result<nat>, end: nat)
  {
    f.Slot? && (Automatic(f) ==> len.Ok? && 1 + end < U64_LIMIT)
  }

  /** The counter before position i, which wraps in a build without overflow checks. */
  function Counter(inits: seq<Init>, lens: seq<Result<nat>>, i: nat): (n: nat)
    requires i <= |inits|
  {
    (1 + Before(inits, lens, i)) % U64_LIMIT
  }

  /** What the pass leaves at position i in any build. */
  function Wrapped(inits: seq<Init>, lens: seq<Result<nat>>, i: nat): (f: Init)
    requires i < |inits|
  {
    if Automatic(inits[i]) then Slot(FromU64(Counter(inits, lens, i))) else inits[i]
  }

  /** Where the pass succeeds with overflow checks, nothing wraps without them. */
  lemma ChecksMakeNoDifference(inits: seq<Init>, lens: seq<Result<nat>>, i: nat)
    requires i < |inits| && Succeeds(inits, lens, |inits|)
    ensures Runs(inits, lens, |inits|) && Wrapped(inits, lens, i) == Assigned(inits, lens, i)
  {
    assert forall i {:trigger inits[i]} :: 0 <= i < |inits| ==> Usable(inits[i], lens[i]) by {
      forall i | 0 <= i < |inits|
        ensures Usable(inits[i], lens[i])
      {
        assert Fits(inits[i], lens[i], Before(inits, lens, i + 1));
      }
    }
    CounterFits(inits, lens, |inits|);
    BeforeMonotone(inits, lens, i, |inits|);
    DivModUnique(1 + Before(inits, lens, i), U64_LIMIT, 0, 1 + Before(inits, lens, i));
  }

  /** Without overflow checks a field can get slot 0, which the next pass takes for unassigned. */
  lemma WrapsToUnassigned()
    ensures var inits, lens := [Slot(0), Slot(0)], [Ok(U64_LIMIT - 1), Ok(1)];
      Runs(inits, lens, 2) && !Succeeds(inits, lens, 2) && Wrapped(inits, lens, 1) == Slot(0) && Automatic(Slot(0))
  {
    var inits, lens := [Slot(0), Slot(0)], [Ok(U64_LIMIT - 1), Ok(1)];
    assert Before(inits, lens, 1) == U64_LIMIT - 1;
    assert !Fits(inits[0], lens[0], Before(inits, lens, 1));
  }

  lemma PassStep(inits: seq<Init>, lens: seq<Result<nat>>, k: nat)
    requires k < |inits|
    ensures Runs(inits, lens, k) ==> (Runs(inits, lens, k + 1) <==> k < |lens| && Usable(inits[k], lens[k]))
    ensures !Runs(inits, lens, k + 1) ==> !Runs(inits, lens, |inits|)
    ensures Succeeds(inits, lens, k) ==>
      (Succeeds(inits, lens, k + 1) <==> k < |lens| && Fits(inits[k], lens[k], Before(inits, lens, k + 1)))
    ensures !Succeeds(inits, lens, k + 1) ==> !Succeeds(inits, lens, |inits|)
  {
  }

  lemma PassStart(inits: seq<Init>, lens: seq<Result<nat>>)
    ensures Runs(inits, lens, 0) && Succeeds(inits, lens, 0) && Counter(inits, lens, 0) == 1
  {
  }

  lemma WrappedCases(inits: seq<Init>, lens: seq<Result<nat>>, i: nat)
    requires i < |inits|
    ensures Wrapped(inits, lens, i) == if Automatic(inits[i]) then Slot(FromU64(Counter(inits, lens, i))) else inits[i]
  {
  }

  lemma CounterStep(inits: seq<Init>, lens: seq<Result<nat>>, i: nat)
    requires i < |inits| && i < |lens|
    ensures !Automatic(inits[i]) ==> Counter(inits, lens, i + 1) == Counter(inits, lens, i)
    ensures Automatic(inits[i]) && lens[i].Ok? ==>
      Counter(inits, lens, i + 1) == (Counter(inits, lens, i) + lens[i].value) % U64_LIMIT
  {
    if Automatic(inits[i]) && lens[i].Ok? {
      SumOfResidue(1 + Before(inits, lens, i), lens[i].value, U64_LIMIT);
    }
  }

  lemma SumOfResidue(x: nat, y: nat, m: nat)
    requires m > 0
    ensures (x % m + y) % m == (x + y) % m
  {
    MulMod(x % m + y, x / m, m);
  }

  lemma NoOverflow(inits: seq<Init>, lens: seq<Result<nat>>, i: nat)
    requires i < |inits| && i < |lens| && Succeeds(inits, lens, i) && Automatic(inits[i]) && lens[i].Ok?
    ensures Counter(inits, lens, i) + lens[i].value < U64_LIMIT <==> Fits(inits[i], lens[i], Before(inits, lens, i + 1))
  {
    CounterFits(inits, lens, i);
    DivModUnique(1 + Before(inits, lens, i), U64_LIMIT, 0, 1 + Before(inits, lens, i));
  }

  /** The loop of `assign_storage_slots`, updating the slot literals in place, in a build with or without overflow checks. */
  method AssignStorageSlots(inits: array<Init>, lens: seq<Result<nat>>, checks: bool) returns (ok: bool)
    modifies inits
    ensures ok <==> if checks then Succeeds(old(inits[..]), lens, inits.Length) else Runs(old(inits[..]), lens, inits.Length)
    ensures ok ==> forall i {:trigger inits[i]} :: 0 <= i < inits.Length ==> inits[i] == Wrapped(old(inits[..]), lens, i)
    ensures ok && checks ==> forall i {:trigger inits[i]} :: 0 <= i < inits.Length ==> inits[i] == Assigned(old(inits[..]), lens, i)
  {
    hide Runs, Succeeds, Assigned, Wrapped, Counter, ToU128, FromU64, Before;
    ghost var start := inits[..];
    var storageSlot, index := 1, 0;
    PassStart(start, lens);
    while index < inits.Length
      invariant 0 <= index <= inits.Length && Runs(start, lens, index) && (checks ==> Succeeds(start, lens, index))
      invariant storageSlot == Counter(start, lens, index)
      invariant forall i {:trigger inits[i]} :: index <= i < inits.Length ==> inits[i] == start[i]
      invariant forall i {:trigger inits[i]} :: 0 <= i < index ==> inits[i] == Wrapped(start, lens, i)
    {
      assert inits[index] == start[index];
      PassStep(start, lens, index);
      if index >= |lens| {
        return false;
      }
      if !inits[index].Slot? {
        return false;
      }
      CounterStep(start, lens, index);
      var current := ToU128(inits[index].value);
      assert current == 0 <==> Automatic(start[index]) by {
        ReadAsU128(start[index].value);
      }
      if current == 0 {
        if lens[index].Err? {
          return false;
        }
        if checks {
          NoOverflow(start, lens, index);
        }
        inits[index] := Slot(FromU64(storageSlot));
        storageSlot := storageSlot + lens[index].value;
        if storageSlot >= U64_LIMIT {
          if checks {
            return false;
          }
        }
        storageSlot := storageSlot % U64_LIMIT;
      }
      WrappedCases(start, lens, index);
      index := index + 1;
    }
    ok := true;
    if checks {
      forall i | 0 <= i < inits.Length
        ensures Wrapped(start, lens, i) == Assigned(start, lens, i)
      {
        ChecksMakeNoDifference(start, lens, i);
      }
    }
  }

  // ---------------------------------------------------------------- properties of the layout

  function AssignedAll(inits: seq<Init>, lens: seq<Result<nat>>): (r: seq<Init>)
    ensures |r| == |inits| && forall i :: 0 <= i < |r| ==> r[i] == Assigned(inits, lens, i)
  {
    seq(|inits|, i requires 0 <= i < |inits| => Assigned(inits, lens, i))
  }

  /** An assigned slot is the exact counter value, and no later pass takes it for unassigned. */
  lemma AssignedSlot(inits: seq<Init>, lens: seq<Result<nat>>, i: nat)
    requires i < |inits| && Succeeds(inits, lens, |inits|)
    ensures !Automatic(Assigned(inits, lens, i))
    ensures Assigned(inits, lens, i).Slot?
    ensures Automatic(inits[i]) ==> Assigned(inits, lens, i).value == 1 + Before(inits, lens, i)
  {
    assert Fits(inits[i], lens[i], Before(inits, lens, i + 1));
    CounterFits(inits, lens, |inits|);
    BeforeMonotone(inits, lens, i, |inits|);
    CounterIsField(1 + Before(inits, lens, i));
  }

  /** A second pass succeeds and changes nothing. */
  lemma SecondPassIsIdle(inits: seq<Init>, lens: seq<Result<nat>>)
    requires Succeeds(inits, lens, |inits|)
    ensures Succeeds(AssignedAll(inits, lens), lens, |inits|)
    ensures AssignedAll(AssignedAll(inits, lens), lens) == AssignedAll(inits, lens)
  {
    forall i | 0 <= i < |inits|
      ensures AssignedAll(inits, lens)[i].Slot? && !Automatic(AssignedAll(inits, lens)[i])
    {
      AssignedSlot(inits, lens, i);
    }
  }

  /** The interval of the storage that position i occupies. */
  predicate Occupies(inits: seq<Init>, lens: seq<Result<nat>>, i: nat, s: nat)
    requires i < |inits|
  {
    1 + Before(inits, lens, i) <= s < 1 + Before(inits, lens, i) + Length(lens, i)
  }

  /** Automatic intervals follow each other in field order, so they are disjoint. */
  lemma InFieldOrder(inits: seq<Init>, lens: seq<Result<nat>>, i: nat, j: nat)
    requires i < j < |inits| && Automatic(inits[i])
    ensures Before(inits, lens, i) + Length(lens, i) <= Before(inits, lens, j)
    ensures forall s :: !(Occupies(inits, lens, i, s) && Occupies(inits, lens, j, s))
  {
    BeforeMonotone(inits, lens, i + 1, j);
  }

  /** Together they cover exactly the slots from 1 up to their total length. */
  lemma {:induction false} ExactCover(inits: seq<Init>, lens: seq<Result<nat>>, k: nat, s: nat)
    requires k <= |inits|
    ensures 1 <= s < 1 + Before(inits, lens, k) <==>
      exists i: nat :: i < k && Automatic(inits[i]) && Occupies(inits, lens, i, s)
  {
    if k > 0 {
      ExactCover(inits, lens, k - 1, s);
      BeforeMonotone(inits, lens, k - 1, k);
      if 1 <= s < 1 + Before(inits, lens, k) && !(s < 1 + Before(inits, lens, k - 1)) {
        assert Automatic(inits[k - 1]) && Occupies(inits, lens, k - 1, s);
      }
    }
  }

  /** An explicit slot range is clear of every automatic one exactly when it misses the automatic block. */
  lemma ExplicitIsClear(inits: seq<Init>, lens: seq<Result<nat>>, from: nat, to: nat)
    ensures (forall s: nat, i: nat :: from <= s < to && i < |inits| && Automatic(inits[i]) ==> !Occupies(inits, lens, i, s))
      <==> to <= from || to <= 1 || 1 + Before(inits, lens, |inits|) <= from || Before(inits, lens, |inits|) == 0
  {
    var end := 1 + Before(inits, lens, |inits|);
    if from < to && 1 < to && from < end && 1 < end {
      var s := if from < 1 then 1 else from;
      ExactCover(inits, lens, |inits|, s);
    } else {
      forall s: nat, i: nat | from <= s < to && i < |inits| && Automatic(inits[i])
        ensures !Occupies(inits, lens, i, s)
      {
        ExactCover(inits, lens, |inits|, s);
      }
    }
  }

  // ---------------------------------------------------------------- explicit slots that are not kept

  /** An explicit slot is kept exactly when its low 128 bits are not all zero. */
  lemma ExplicitIsKept(inits: seq<Init>, lens: seq<Result<nat>>, i: nat)
    requires i < |inits| && Succeeds(inits, lens, |inits|) && inits[i].Slot? && inits[i].value != 0
    ensures Assigned(inits, lens, i) == inits[i] <==> inits[i].value % U128_LIMIT != 0
  {
    AssignedSlot(inits, lens, i);
    CounterFits(inits, lens, |inits|);
    BeforeMonotone(inits, lens, i, |inits|);
    if inits[i].value < U128_LIMIT {
      DivModUnique(inits[i].value, U128_LIMIT, 0, inits[i].value);
    }
  }

  /** A storage with one field of length 1 at the explicit slot 2^128 gets slot 1. */
  lemma SlotOverwritten()
    ensures U128_LIMIT < P
    ensures var inits, lens := [Slot(U128_LIMIT)], [Ok(1)];
      Succeeds(inits, lens, 1) && AssignedAll(inits, lens) == [Slot(1)]
  {
    ModulusBounds();
    Pow2Of128();
    var inits, lens := [Slot(U128_LIMIT)], [Ok(1)];
    assert Before(inits, lens, 0) == 0 && Before(inits, lens, 1) == 1;
    assert Fits(inits[0], lens[0], 1);
    AssignedSlot(inits, lens, 0);
  }

  // ---------------------------------------------------------------- initializers out of order

  /** Initializer i is for struct field order[i]; the fields of automatic slots have a length. */
  predicate Ordering(inits: seq<Init>, lens: seq<Result<nat>>, order: seq<nat>)
  {
    && |order| == |inits|
    && (forall i :: 0 <= i < |order| ==> order[i] < |lens|)
    && (forall i :: 0 <= i < |inits| && Automatic(inits[i]) ==> lens[order[i]].Ok?)
  }

  /** The first slot handed to the field of initializer i. */
  function StartOf(inits: seq<Init>, lens: seq<Result<nat>>, i: nat): (s: nat)
    requires i < |inits| && Assigned(inits, lens, i).Slot?
  {
    Assigned(inits, lens, i).value
  }

  /** The ranges the fields of automatic slots really take are in order without overlap: the counter advances by the length
      at position i of the struct, the field takes its own length. */
  ghost predicate Separate(inits: seq<Init>, lens: seq<Result<nat>>, order: seq<nat>)
    requires Succeeds(inits, lens, |inits|) && Ordering(inits, lens, order)
  {
    forall i, j :: 0 <= i < j < |inits| && Automatic(inits[i]) && Automatic(inits[j]) ==>
      StartOf(inits, lens, i) + Length(lens, order[i]) <= StartOf(inits, lens, j)
  }

  predicate LaterAutomatic(inits: seq<Init>, i: nat)
  {
    exists j :: i < j < |inits| && Automatic(inits[j])
  }

  /** Every automatic initializer but the last is for a field no longer than the struct field at its position. */
  predicate NoLonger(inits: seq<Init>, lens: seq<Result<nat>>, order: seq<nat>)
    requires |order| == |inits|
  {
    forall i :: 0 <= i < |inits| && Automatic(inits[i]) && LaterAutomatic(inits, i) ==> Length(lens, order[i]) <= Length(lens, i)
  }

  /** Explicit slots do not advance the counter. */
  lemma {:induction false} NextAutomatic(inits: seq<Init>, lens: seq<Result<nat>>, i: nat, j: nat)
    requires i < j < |inits| && Automatic(inits[j])
    ensures exists k :: i < k <= j && Automatic(inits[k]) && Before(inits, lens, k) == Before(inits, lens, i + 1)
    decreases j - i
  {
    if !Automatic(inits[i + 1]) {
      NextAutomatic(inits, lens, i + 1, j);
    }
  }

  lemma OrderedRanges(inits: seq<Init>, lens: seq<Result<nat>>, order: seq<nat>, i: nat, j: nat)
    requires Succeeds(inits, lens, |inits|) && Ordering(inits, lens, order) && NoLonger(inits, lens, order)
    requires i < j < |inits| && Automatic(inits[i]) && Automatic(inits[j])
    ensures Assigned(inits, lens, i).Slot? && Assigned(inits, lens, j).Slot?
    ensures StartOf(inits, lens, i) + Length(lens, order[i]) <= StartOf(inits, lens, j)
  {
    AssignedSlot(inits, lens, i);
    AssignedSlot(inits, lens, j);
    assert LaterAutomatic(inits, i);
    BeforeMonotone(inits, lens, i + 1, j);
  }

  /** A field that is too long runs into the next automatic one. */
  lemma LongerOverlaps(inits: seq<Init>, lens: seq<Result<nat>>, order: seq<nat>, i: nat) returns (k: nat)
    requires Succeeds(inits, lens, |inits|) && Ordering(inits, lens, order)
    requires i < |inits| && Automatic(inits[i]) && LaterAutomatic(inits, i) && Length(lens, order[i]) > Length(lens, i)
    ensures i < k < |inits| && Automatic(inits[k])
    ensures Assigned(inits, lens, i).Slot? && Assigned(inits, lens, k).Slot?
    ensures StartOf(inits, lens, i) <= StartOf(inits, lens, k) < StartOf(inits, lens, i) + Length(lens, order[i])
  {
    var j :| i < j < |inits| && Automatic(inits[j]);
    NextAutomatic(inits, lens, i, j);
    k :| i < k <= j && Automatic(inits[k]) && Before(inits, lens, k) == Before(inits, lens, i + 1);
    AssignedSlot(inits, lens, i);
    AssignedSlot(inits, lens, k);
  }

  /** The true ranges are separate exactly when no automatic initializer but the last is for a longer field than the struct
      has at its position; explicit slots in between make no difference. */
  lemma SeparateIffOrdered(inits: seq<Init>, lens: seq<Result<nat>>, order: seq<nat>)
    requires Succeeds(inits, lens, |inits|) && Ordering(inits, lens, order)
    ensures Separate(inits, lens, order) <==> NoLonger(inits, lens, order)
  {
    if NoLonger(inits, lens, order) {
      forall i, j | 0 <= i < j < |inits| && Automatic(inits[i]) && Automatic(inits[j])
        ensures Assigned(inits, lens, i).Slot? && Assigned(inits, lens, j).Slot?
        ensures StartOf(inits, lens, i) + Length(lens, order[i]) <= StartOf(inits, lens, j)
      {
        OrderedRanges(inits, lens, order, i, j);
      }
    } else {
      var i :| 0 <= i < |inits| && Automatic(inits[i]) && LaterAutomatic(inits, i) && Length(lens, order[i]) > Length(lens, i);
      var k := LongerOverlaps(inits, lens, order, i);
    }
  }

  /** With automatic slots only, every initializer but the last counts; initializers in struct order are always separate. */
  lemma AllAutomatic(inits: seq<Init>, lens: seq<Result<nat>>, order: seq<nat>)
    requires Succeeds(inits, lens, |inits|) && Ordering(inits, lens, order)
    requires forall i :: 0 <= i < |inits| ==> Automatic(inits[i])
    ensures Separate(inits, lens, order) <==> forall i :: 0 <= i < |inits| - 1 ==> lens[order[i]].value <= lens[i].value
    ensures (forall i :: 0 <= i < |inits| ==> order[i] == i) ==> Separate(inits, lens, order)
  {
    SeparateIffOrdered(inits, lens, order);
    forall i | 0 <= i < |inits|
      ensures LaterAutomatic(inits, i) <==> i < |inits| - 1
      ensures lens[i].Ok?
    {
      assert Fits(inits[i], lens[i], Before(inits, lens, i + 1));
      if i < |inits| - 1 {
        assert Automatic(inits[i + 1]);
      }
    }
  }

  /** Initializers i and j are given a slot in common. */
  ghost predicate Share(inits: seq<Init>, lens: seq<Result<nat>>, order: seq<nat>, i: nat, j: nat)
    requires Succeeds(inits, lens, |inits|) && Ordering(inits, lens, order)
    requires i < |inits| && j < |inits| && Automatic(inits[i]) && Automatic(inits[j])
  {
    exists s: nat :: InRange(s, StartOf(inits, lens, i), Length(lens, order[i])) && InRange(s, StartOf(inits, lens, j), Length(lens, order[j]))
  }

  predicate InRange(s: nat, start: nat, length: nat)
  {
    start <= s < start + length
  }

  /** For fields that are not empty this is exactly when no two fields share a slot. */
  lemma DisjointIffOrdered(inits: seq<Init>, lens: seq<Result<nat>>, order: seq<nat>)
    requires Succeeds(inits, lens, |inits|) && Ordering(inits, lens, order)
    requires forall i :: 0 <= i < |inits| && Automatic(inits[i]) ==> Length(lens, order[i]) > 0
    ensures NoLonger(inits, lens, order) <==>
      forall i: nat, j: nat :: i < j < |inits| && Automatic(inits[i]) && Automatic(inits[j]) ==> !Share(inits, lens, order, i, j)
  {
    if NoLonger(inits, lens, order) {
      forall i: nat, j: nat | i < j < |inits| && Automatic(inits[i]) && Automatic(inits[j])
        ensures !Share(inits, lens, order, i, j)
      {
        OrderedRanges(inits, lens, order, i, j);
      }
    } else {
      var i :| 0 <= i < |inits| && Automatic(inits[i]) && LaterAutomatic(inits, i) && Length(lens, order[i]) > Length(lens, i);
      var k := LongerOverlaps(inits, lens, order, i);
      assert InRange(StartOf(inits, lens, k), StartOf(inits, lens, i), Length(lens, order[i]));
      assert Share(inits, lens, order, i, k);
    }
  }

  /** A struct with fields of lengths 1 and 2 whose initializers are written the other way round: the field of length 2 gets
      slot 1 and the other one slot 2, which the first needs as well. */
  lemma SwappedFieldsOverlap()
    ensures var inits, lens, order := [Slot(0), Slot(0)], [Ok(1), Ok(2)], [1, 0];
      && Succeeds(inits, lens, 2) && Ordering(inits, lens, order)
      && AssignedAll(inits, lens) == [Slot(1), Slot(2)] && !Separate(inits, lens, order)
  {
    var inits, lens, order := [Slot(0), Slot(0)], [Ok(1), Ok(2)], [1, 0];
    assert Before(inits, lens, 0) == 0 && Before(inits, lens, 1) == 1 && Before(inits, lens, 2) == 3;
    assert Fits(inits[0], lens[0], 1) && Fits(inits[1], lens[1], 3);
    AssignedSlot(inits, lens, 0);
    AssignedSlot(inits, lens, 1);
    AllAutomatic(inits, lens, order);
    assert lens[order[0]].value > lens[0].value;
  }
}
