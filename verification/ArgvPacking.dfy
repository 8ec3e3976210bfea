/**
 One allocation that holds a process's argument vector: a table of pointers, a null pointer, and
 behind it the strings the pointers point to.
 */
module ArgvPacking {
  import opened Wrappers
  import opened IntegerTypes
  import opened Arithmetic
  import opened LineSpans

  const PTR_SIZE := 8
  const EOVERFLOW := 75
  const ENOMEM := 12
  const NUL: Byte := 0

  type Arg = seq<Byte>

  // ----- Sizes -----

  /** The bytes of the strings before number `i`, terminators included. */
  function StringBytes(args: seq<Arg>, i: nat): nat
    requires i <= |args|
  {
    if i == 0 then 0 else StringBytes(args, i - 1) + |args[i - 1]| + 1
  }

  function TableBytes(args: seq<Arg>): nat {
    PTR_SIZE * (|args| + 1)
  }

  /** Where string `i` starts, and for `i` the number of strings, where the allocation ends. */
  function Offset(args: seq<Arg>, i: nat): nat
    requires i <= |args|
  {
    TableBytes(args) + StringBytes(args, i)
  }

  function SumOfLengths(args: seq<Arg>, i: nat): nat
    requires i <= |args|
  {
    if i == 0 then 0 else SumOfLengths(args, i - 1) + |args[i - 1]|
  }

  lemma {:induction false} StringBytesAre(args: seq<Arg>, i: nat)
    requires i <= |args|
    ensures StringBytes(args, i) == SumOfLengths(args, i) + i
  {
    if i > 0 {
      StringBytesAre(args, i - 1);
    }
  }

  /** Sizes are `size_t` values. */
  predicate Sized(args: seq<Arg>) {
    InRange(SIZE_T, |args|) && forall i :: 0 <= i < |args| ==> InRange(SIZE_T, |args[i]|)
  }

  function CheckedAdd(a: Checked, b: int): Checked {
    var r := BuiltinOverflow(SIZE_T, a.value + b);
    Checked(r.value, a.overflow || r.overflow)
  }

  function CheckedMul(a: Checked, b: int): Checked {
    var r := BuiltinOverflow(SIZE_T, a.value * b);
    Checked(r.value, a.overflow || r.overflow)
  }

  /** A checked counter holds the true value as long as it fits, and flags that it does not. */
  predicate Counts(c: Checked, total: nat) {
    if InRange(SIZE_T, total) then c == Checked(total, false) else c.overflow
  }

  lemma CountsMore(c: Checked, total: nat, more: nat)
    requires Counts(c, total)
    ensures Counts(CheckedAdd(c, more), total + more)
  {
    ConvertIsInRange(SIZE_T, total + more);
  }

  datatype Sizes = TooLarge | Aborted | Fits(table: nat, total: nat)

  /**
   What the size computation comes to: the table must fit, then the strings, then both. A sum of
   string sizes that overflowed is not reported but trips the check of `Checked::value`.
   */
  function SizesOf(args: seq<Arg>): Sizes {
    var strings := StringBytes(args, |args|);
    if !InRange(SIZE_T, TableBytes(args)) then TooLarge
    else if !InRange(SIZE_T, strings) then Aborted
    else if !InRange(SIZE_T, TableBytes(args) + strings) then TooLarge
    else Fits(TableBytes(args), TableBytes(args) + strings)
  }

  lemma {:induction false} SameStringBytes(args: seq<Arg>, length: nat, i: nat)
    requires i <= |args| && forall k :: 0 <= k < |args| ==> |args[k]| == length
    ensures StringBytes(args, i) == i * (length + 1)
  {
    if i > 0 {
      SameStringBytes(args, length, i - 1);
    }
  }

  /**
   A list that names one string of 2^40 bytes 2^24 times makes the computation abort: both fit the
   address space, and so would the table.
   */
  lemma RepeatedStringAborts(long: Arg)
    requires |long| == 0x100_0000_0000
    ensures var args := seq(0x100_0000, _ => long);
            Sized(args) && SizesOf(args) == Aborted
  {
    var args := seq(0x100_0000, _ => long);
    SameStringBytes(args, 0x100_0000_0000, |args|);
  }

  method ComputeSizes(args: seq<Arg>) returns (sizes: Sizes)
    requires Sized(args)
    ensures sizes == SizesOf(args)
  {
    var argvSize := CheckedAdd(Checked(|args|, false), 1);
    CountsMore(Checked(|args|, false), |args|, 1);
    var argvMallocSize := CheckedMul(argvSize, PTR_SIZE);
    ConvertIsInRange(SIZE_T, argvSize.value * PTR_SIZE);
    if argvMallocSize.overflow {
      return TooLarge;
    }
    var totalStringSize := Checked(0, false);
    var i := 0;
    while i != |args|
      invariant i <= |args| && Counts(totalStringSize, SumOfLengths(args, i))
    {
      CountsMore(totalStringSize, SumOfLengths(args, i), |args[i]|);
      totalStringSize := CheckedAdd(totalStringSize, |args[i]|);
      i := i + 1;
    }
    CountsMore(totalStringSize, SumOfLengths(args, i), |args|);
    StringBytesAre(args, |args|);
    totalStringSize := CheckedAdd(totalStringSize, |args|);
    if totalStringSize.overflow {
      return Aborted;
    }
    CountsMore(argvMallocSize, TableBytes(args), totalStringSize.value);
    var totalAllocationSize := CheckedAdd(argvMallocSize, totalStringSize.value);
    if totalAllocationSize.overflow {
      return TooLarge;
    }
    sizes := Fits(argvMallocSize.value, totalAllocationSize.value);
  }

  // ----- Contents -----

  /** A pointer as stored in memory, lowest byte first. */
  function PointerBytes(v: nat, n: nat): (r: seq<Byte>)
    ensures |r| == n
  {
    if n == 0 then [] else [v % 256] + PointerBytes(v / 256, n - 1)
  }

  function LoadBytes(s: seq<Byte>): nat {
    if s == [] then 0 else s[0] + 256 * LoadBytes(s[1..])
  }

  function Power(n: nat): nat {
    if n == 0 then 1 else 256 * Power(n - 1)
  }

  lemma {:induction false} LoadsWhatWasStored(v: nat, n: nat)
    requires v < Power(n)
    ensures LoadBytes(PointerBytes(v, n)) == v
  {
    if n > 0 {
      LoadsWhatWasStored(v / 256, n - 1);
    }
  }

  function LoadPointer(s: seq<Byte>, at: nat): nat
    requires at + PTR_SIZE <= |s|
  {
    LoadBytes(s[at..at + PTR_SIZE])
  }

  /** The first `i` pointers of the table, for an allocation at address `base`. */
  function Table(args: seq<Arg>, base: nat, i: nat): (r: seq<Byte>)
    requires i <= |args|
    ensures |r| == PTR_SIZE * i
  {
    if i == 0 then [] else Table(args, base, i - 1) + PointerBytes(base + Offset(args, i - 1), PTR_SIZE)
  }

  function Strings(args: seq<Arg>, i: nat): (r: seq<Byte>)
    requires i <= |args|
    ensures |r| == StringBytes(args, i)
  {
    if i == 0 then [] else Strings(args, i - 1) + args[i - 1] + [NUL]
  }

  /** The whole allocation: table, null pointer, strings. */
  function Image(args: seq<Arg>, base: nat): (r: seq<Byte>)
    ensures |r| == Offset(args, |args|)
  {
    Table(args, base, |args|) + PointerBytes(0, PTR_SIZE) + Strings(args, |args|)
  }

  /** The string at an offset, up to its terminator. */
  function CString(s: seq<Byte>, at: nat): seq<Byte>
    decreases |s| - at
  {
    if at >= |s| || s[at] == NUL then [] else [s[at]] + CString(s, at + 1)
  }

  // ----- Reading back -----

  lemma {:induction false} TableAt(args: seq<Arg>, base: nat, n: nat, i: nat)
    requires i < n <= |args|
    ensures Table(args, base, n)[PTR_SIZE * i..PTR_SIZE * i + PTR_SIZE] == PointerBytes(base + Offset(args, i), PTR_SIZE)
  {
    var front := Table(args, base, n - 1);
    if i < n - 1 {
      TableAt(args, base, n - 1, i);
      assert Table(args, base, n)[PTR_SIZE * i..PTR_SIZE * i + PTR_SIZE] == front[PTR_SIZE * i..PTR_SIZE * i + PTR_SIZE];
    }
  }

  lemma {:induction false} StringsAt(args: seq<Arg>, n: nat, i: nat)
    requires i < n <= |args|
    ensures StringBytes(args, i) + |args[i]| + 1 <= StringBytes(args, n)
    ensures var at := StringBytes(args, i);
            Strings(args, n)[at..at + |args[i]|] == args[i] && Strings(args, n)[at + |args[i]|] == NUL
  {
    if i < n - 1 {
      StringsAt(args, n - 1, i);
      var at, front := StringBytes(args, i), Strings(args, n - 1);
      assert Strings(args, n)[at..at + |args[i]|] == front[at..at + |args[i]|];
    }
  }

  lemma {:induction false} CStringReads(s: seq<Byte>, at: nat, a: Arg)
    requires at + |a| < |s| && s[at..at + |a|] == a && s[at + |a|] == NUL
    ensures CString(s, at) == a <==> NUL !in a
    decreases |a|
  {
    if a != [] {
      assert s[at] == a[0];
      if s[at] != NUL {
        assert s[at + 1..at + 1 + |a[1..]|] == a[1..] by {
          assert s[at..at + |a|][1..] == a[1..];
        }
        CStringReads(s, at + 1, a[1..]);
        assert a == [a[0]] + a[1..];
      } else {
        assert NUL in a;
      }
    }
  }

  lemma EntryPoints(args: seq<Arg>, base: nat, i: nat)
    requires i < |args| && base + Offset(args, |args|) <= Max(SIZE_T)
    ensures PTR_SIZE * i + PTR_SIZE <= |Image(args, base)|
    ensures LoadPointer(Image(args, base), PTR_SIZE * i) == base + Offset(args, i)
  {
    var at, table := PTR_SIZE * i, Table(args, base, |args|);
    TableAt(args, base, |args|, i);
    StringsAt(args, |args|, i);
    assert Image(args, base)[at..at + PTR_SIZE] == table[at..at + PTR_SIZE];
    AddressFits(base + Offset(args, i));
    LoadsWhatWasStored(base + Offset(args, i), PTR_SIZE);
  }

  lemma StringIsThere(args: seq<Arg>, base: nat, i: nat)
    requires i < |args|
    ensures var m, at := Image(args, base), Offset(args, i);
            at + |args[i]| < |m| && m[at..at + |args[i]|] == args[i] && m[at + |args[i]|] == NUL
  {
    var strings, at := Strings(args, |args|), StringBytes(args, i);
    var head := TableAndNull(args, base);
    StringsAt(args, |args|, i);
    ImageIsHeadAndStrings(args, base);
    assert Offset(args, i) == |head| + at;
    hide *;
    InSecondPart(head, strings, at, at + |args[i]|);
  }

  function TableAndNull(args: seq<Arg>, base: nat): (head: seq<Byte>)
    ensures |head| == TableBytes(args)
  {
    Table(args, base, |args|) + PointerBytes(0, PTR_SIZE)
  }

  lemma ImageIsHeadAndStrings(args: seq<Arg>, base: nat)
    ensures Image(args, base) == TableAndNull(args, base) + Strings(args, |args|)
  {
  }

  lemma InSecondPart(head: seq<Byte>, tail: seq<Byte>, a: nat, b: nat)
    requires a <= b < |tail|
    ensures (head + tail)[|head| + a..|head| + b] == tail[a..b] && (head + tail)[|head| + b] == tail[b]
  {
  }

  /**
   Every entry of the table points at its argument's copy, reading there gives the argument exactly
   when it has no NUL inside, the entry behind the last is null, and the strings end with the allocation.
   */
  lemma PackingRoundTrips(args: seq<Arg>, base: nat, i: nat)
    requires SizesOf(args).Fits? && i < |args| && base + Offset(args, |args|) <= Max(SIZE_T)
    ensures PTR_SIZE * i + PTR_SIZE <= |Image(args, base)|
    ensures LoadPointer(Image(args, base), PTR_SIZE * i) == base + Offset(args, i)
    ensures TableBytes(args) <= Offset(args, i) && Offset(args, i) + |args[i]| < |Image(args, base)|
    ensures CString(Image(args, base), Offset(args, i)) == args[i] <==> NUL !in args[i]
  {
    EntryPoints(args, base, i);
    StringIsThere(args, base, i);
    CStringReads(Image(args, base), Offset(args, i), args[i]);
  }

  lemma AddressFits(v: nat)
    requires v <= Max(SIZE_T)
    ensures v < Power(PTR_SIZE)
  {
    assert Power(4) == 0x1_0000_0000;
    assert Power(8) == 256 * 256 * 256 * 256 * Power(4);
  }

  lemma TableEndsWithNull(args: seq<Arg>, base: nat)
    ensures LoadPointer(Image(args, base), PTR_SIZE * |args|) == 0
  {
    var at := PTR_SIZE * |args|;
    assert Image(args, base)[at..at + PTR_SIZE] == PointerBytes(0, PTR_SIZE);
    AddressFits(0);
    LoadsWhatWasStored(0, PTR_SIZE);
  }

  // ----- Packing -----

  /** Memory after the bytes `x` were written at an offset. */
  function Written(s: seq<Byte>, at: nat, x: seq<Byte>): (r: seq<Byte>)
    requires at + |x| <= |s|
    ensures |r| == |s|
  {
    s[..at] + x + s[at + |x|..]
  }

  method StoreBytes(full: array<Byte>, at: nat, s: seq<Byte>)
    requires at + |s| <= full.Length
    modifies full
    ensures full[..] == Written(old(full[..]), at, s)
  {
    ghost var before := full[..];
    var k := 0;
    while k < |s|
      invariant k <= |s|
      invariant forall j :: 0 <= j < full.Length ==> full[j] == if at <= j < at + k then s[j - at] else before[j]
    {
      full[at + k] := s[k];
      k := k + 1;
    }
    assert full[..] == before[..at] + s + before[at + |s|..];
  }

  /** A stretch of memory away from a write is unchanged, and the write is there. */
  lemma Spliced(s: seq<Byte>, s': seq<Byte>, at: nat, x: seq<Byte>, a: nat, b: nat)
    requires at + |x| <= |s| && s' == Written(s, at, x)
    requires a <= b <= |s| && (b <= at || at + |x| <= a)
    ensures s'[a..b] == s[a..b] && s'[at..at + |x|] == x
  {
    forall k | a <= k < b ensures s'[k] == s[k] {
    }
  }

  datatype Packed = Errno(code: int) | Stopped | Argv(base: nat)

  /** After `i` arguments: their table entries and their strings are in place. */
  ghost predicate Filled(args: seq<Arg>, base: nat, i: nat, s: seq<Byte>) {
    && i <= |args| && |s| == Offset(args, |args|) && Offset(args, i) <= |s|
    && s[..PTR_SIZE * i] == Table(args, base, i)
    && s[TableBytes(args)..Offset(args, i)] == Strings(args, i)
  }

  lemma TwoParts(s: seq<Byte>, a: nat, b: nat, c: nat)
    requires a <= b <= c <= |s|
    ensures s[a..c] == s[a..b] + s[b..c]
  {
  }

  /** What stood before a stretch stays in front of what is written there. */
  lemma Extends(s: seq<Byte>, s': seq<Byte>, at: nat, x: seq<Byte>, a: nat, front: seq<Byte>)
    requires at + |x| <= |s| && s' == Written(s, at, x) && a <= at && s[a..at] == front
    ensures s'[a..at + |x|] == front + x
  {
    Spliced(s, s', at, x, a, at);
    TwoParts(s', a, at, at + |x|);
  }

  /** Two writes, the second one in front, lengthen two stretches of memory. */
  lemma TwoWrites(s0: seq<Byte>, s1: seq<Byte>, s2: seq<Byte>, p: nat, entry: seq<Byte>, strings: nat, at: nat, text: seq<Byte>)
    requires p + |entry| <= strings <= at && at + |text| <= |s0|
    requires s1 == Written(s0, at, text) && s2 == Written(s1, p, entry)
    ensures s2[0..p + |entry|] == s0[0..p] + entry
    ensures s2[strings..at + |text|] == s0[strings..at] + text
  {
    hide Written;
    Spliced(s0, s1, at, text, 0, p);
    Extends(s0, s1, at, text, strings, s0[strings..at]);
    Extends(s1, s2, p, entry, 0, s0[0..p]);
    Spliced(s1, s2, p, entry, strings, at + |text|);
  }

  /** One string is written, then its table entry; what was in place stays. */
  lemma FilledStep(args: seq<Arg>, base: nat, i: nat, s0: seq<Byte>, s1: seq<Byte>, s2: seq<Byte>)
    requires i < |args| && Filled(args, base, i, s0)
    requires Offset(args, i) + |args[i]| + 1 <= |s0|
    requires s1 == Written(s0, Offset(args, i), args[i] + [NUL])
    requires PTR_SIZE * i + PTR_SIZE <= |s1|
    requires s2 == Written(s1, PTR_SIZE * i, PointerBytes(base + Offset(args, i), PTR_SIZE))
    ensures Filled(args, base, i + 1, s2)
  {
    var at, text, entry := Offset(args, i), args[i] + [NUL], PointerBytes(base + Offset(args, i), PTR_SIZE);
    var p, strings := PTR_SIZE * i, TableBytes(args);
    OneMoreArgument(args, base, i);
    assert p + PTR_SIZE <= strings <= at;
    hide Table, Strings, Offset, PointerBytes, TableBytes, Written;
    assert s0[0..p] == s0[..p] == Table(args, base, i);
    TwoWrites(s0, s1, s2, p, entry, strings, at, text);
    assert s2[..PTR_SIZE * (i + 1)] == s2[0..p + PTR_SIZE];
  }

  lemma OneMoreArgument(args: seq<Arg>, base: nat, i: nat)
    requires i < |args|
    ensures Offset(args, i + 1) == Offset(args, i) + |args[i] + [NUL]| <= Offset(args, |args|)
    ensures Strings(args, i + 1) == Strings(args, i) + (args[i] + [NUL])
    ensures Table(args, base, i + 1) == Table(args, base, i) + PointerBytes(base + Offset(args, i), PTR_SIZE)
  {
    StringsAt(args, |args|, i);
  }

  lemma FilledAll(args: seq<Arg>, base: nat, s0: seq<Byte>, s: seq<Byte>)
    requires Filled(args, base, |args|, s0)
    requires s == Written(s0, PTR_SIZE * |args|, PointerBytes(0, PTR_SIZE))
    ensures s == Image(args, base)
  {
    assert s0[TableBytes(args)..] == s0[TableBytes(args)..Offset(args, |args|)];
  }

  lemma RoomForOne(args: seq<Arg>, base: nat, i: nat, s: seq<Byte>)
    requires i < |args| && Filled(args, base, i, s)
    ensures Offset(args, i) + |args[i]| + 1 <= |s| && PTR_SIZE * i + PTR_SIZE <= |s|
  {
    StringsAt(args, |args|, i);
  }

  /** Copies argument `i` behind the strings before it and points its table entry there. */
  method PackOne(args: seq<Arg>, base: nat, full: array<Byte>, i: nat)
    requires i < |args| && Filled(args, base, i, full[..])
    modifies full
    ensures Filled(args, base, i + 1, full[..])
  {
    RoomForOne(args, base, i, full[..]);
    hide Filled, Table, Strings, Offset, Written, PointerBytes;
    ghost var s0 := full[..];
    var arg := Offset(args, i);
    StoreBytes(full, arg, args[i] + [NUL]);
    ghost var s1 := full[..];
    StoreBytes(full, PTR_SIZE * i, PointerBytes(base + arg, PTR_SIZE));
    FilledStep(args, base, i, s0, s1, full[..]);
  }

  /** `allocation` is what `malloc` returns: no address, or that of a block inside the address space. */
  method DupArgv(args: seq<Arg>, allocation: Option<nat>) returns (r: Packed, full: array<Byte>)
    requires Sized(args)
    requires SizesOf(args).Fits? && allocation.Some? ==> 0 < allocation.value && allocation.value + SizesOf(args).total <= Max(SIZE_T)
    ensures fresh(full)
    ensures SizesOf(args).TooLarge? ==> r == Errno(EOVERFLOW)
    ensures SizesOf(args).Aborted? ==> r == Stopped
    ensures SizesOf(args).Fits? ==> r == if allocation.None? then Errno(ENOMEM) else Argv(allocation.value)
    ensures r.Argv? ==> full.Length == SizesOf(args).total && full[..] == Image(args, r.base)
  {
    full := new Byte[0];
    var sizes := ComputeSizes(args);
    match sizes {
      case TooLarge => return Errno(EOVERFLOW), full;
      case Aborted => return Stopped, full;
      case Fits(table, total) =>
        if allocation.None? {
          return Errno(ENOMEM), full;
        }
        var base := allocation.value;
        full := new Byte[total];
        var i := 0;
        while i != |args|
          invariant i <= |args| && fresh(full) && Filled(args, base, i, full[..])
        {
          PackOne(args, base, full, i);
          i := i + 1;
        }
        ghost var s0 := full[..];
        StoreBytes(full, PTR_SIZE * |args|, PointerBytes(0, PTR_SIZE));
        FilledAll(args, base, s0, full[..]);
        r := Argv(base);
    }
  }
}
