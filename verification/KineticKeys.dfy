/** The keys under which a chunk is striped over the drives, the key interval the listings ask
    for, and the parser the downloader runs on every listed key. */
module KineticKeys {
  import opened Basics
  import opened Digits
  import opened KeyOrder

  const DASH: byte := 45
  const HASH: byte := 35
  const UPPER_X: byte := 88

  function Lower(name: Key): Key { name + [DASH] }

  function Upper(name: Key): Key { name + [DASH, UPPER_X] }

  function DataKey(name: Key, sequence: nat, size: nat): Key {
    Lower(name) + (Dec(sequence) + [DASH] + Dec(size))
  }

  function ManifestKey(name: Key): Key { Lower(name) + [HASH] }

  predicate InRange(name: Key, k: Key) { Between(Lower(name), k, Upper(name)) }

  predicate DashFree(name: Key) { DASH !in name }

  /** The listed interval is exactly the proper extensions of `name-` whose next byte is
      below 'X'. */
  lemma InRangeIff(name: Key, k: Key)
    ensures InRange(name, k) <==> Lower(name) <= k && |k| > |name| + 1 && k[|name| + 1] < UPPER_X
  {
    var lo := Lower(name);
    assert Upper(name) == lo + [UPPER_X];
    if InRange(name, k) {
      BetweenExtensions(lo, k, [UPPER_X]);
    }
    if lo <= k {
      var rest := k[|lo|..];
      assert k == lo + rest && lo == lo + [];
      CommonPrefix(lo, [], rest);
      CommonPrefix(lo, rest, [UPPER_X]);
      assert Less([], rest) <==> rest != [];
      if rest != [] {
        assert Less(rest, [UPPER_X]) <==> rest[0] < UPPER_X || (rest[0] == UPPER_X && Less(rest[1..], []));
      }
    }
  }

  lemma OwnKeysInRange(name: Key, sequence: nat, size: nat)
    ensures InRange(name, DataKey(name, sequence, size))
    ensures InRange(name, ManifestKey(name))
  {
    InRangeIff(name, DataKey(name, sequence, size));
    InRangeIff(name, ManifestKey(name));
    assert IsDigit(DataKey(name, sequence, size)[|name| + 1]) by {
      assert Dec(sequence)[0] in Dec(sequence);
    }
  }

  /** Between dash-free names the interval isolates: it meets a key `other-suffix` exactly when
      `other` is the name itself (and the suffix starts below 'X'). */
  lemma IntervalIsolation(name: Key, other: Key, suffix: Bytes)
    requires DashFree(name) && DashFree(other)
    ensures InRange(name, Lower(other) + suffix) <==> other == name && suffix != [] && suffix[0] < UPPER_X
  {
    var k := Lower(other) + suffix;
    InRangeIff(name, k);
    if Lower(name) <= k {
      assert k[|name|] == DASH;
      assert k[|other|] == DASH;
      assert forall i :: 0 <= i < |name| ==> k[i] == name[i] && k[i] in name;
      assert forall i :: 0 <= i < |other| ==> k[i] == other[i] && k[i] in other;
      assert |name| == |other|;
      assert name == k[..|name|] == other;
    }
  }

  /** A key `other-text-...` with digits for text extends `name-` in three ways only. */
  lemma ExtendsExactly(name: Key, other: Key, text: Bytes, tail: Bytes)
    requires DASH !in text && DASH !in tail
    ensures Lower(name) <= Lower(other) + (text + [DASH] + tail) <==>
            name == other || name == Lower(other) + text || Lower(name) <= other
  {
    if Lower(name) <= Lower(other) + (text + [DASH] + tail) {
      ExtendsOnly(name, other, text, tail);
    } else {
      ExtendsThrice(name, other, text, tail);
    }
  }

  lemma ExtendsOnly(name: Key, other: Key, text: Bytes, tail: Bytes)
    requires DASH !in text && DASH !in tail
    requires Lower(name) <= Lower(other) + (text + [DASH] + tail)
    ensures name == other || name == Lower(other) + text || Lower(name) <= other
  {
    var k, head := Lower(other) + (text + [DASH] + tail), Lower(other) + text;
    var n, m, d := |name|, |other|, |text|;
    assert k[..n] == name && k[n] == DASH;
    DashesAt(other, text, tail, n);
    if n < m {
      assert Lower(name) == k[..n + 1] == other[..n + 1];
    } else if n == m {
      assert k[..m] == other;
    } else {
      assert k[..m + 1 + d] == head;
    }
  }

  /** Behind the name, such a key has two dashes. */
  lemma DashesAt(other: Key, text: Bytes, tail: Bytes, i: nat)
    requires DASH !in text && DASH !in tail && i < |other| + 2 + |text| + |tail|
    ensures (Lower(other) + (text + [DASH] + tail))[i] == DASH ==> i <= |other| || i == |other| + 1 + |text|
  {
    var k, m, d := Lower(other) + (text + [DASH] + tail), |other|, |text|;
    if m < i < m + 1 + d {
      assert k[i] == text[i - m - 1] && text[i - m - 1] in text;
    } else if i > m + 1 + d {
      assert k[i] == tail[i - m - 2 - d] && tail[i - m - 2 - d] in tail;
    }
  }

  lemma ExtendsThrice(name: Key, other: Key, text: Bytes, tail: Bytes)
    ensures name == other || name == Lower(other) + text || Lower(name) <= other ==>
              Lower(name) <= Lower(other) + (text + [DASH] + tail)
  {
    var k, head := Lower(other) + (text + [DASH] + tail), Lower(other) + text;
    assert name == other ==> Lower(name) == k[..|other| + 1];
    assert name == head ==> Lower(name) == k[..|other| + 2 + |text|];
    assert Lower(name) <= other ==> Lower(name) == other[..|name| + 1] == k[..|name| + 1];
  }

  /** Which data keys of any other name, dashes allowed, fall in the interval of a name: those
      of a name that extends `name-`, and the one block whose number completes the name. */
  lemma IntrudersExactly(name: Key, other: Key, sequence: nat, size: nat)
    ensures InRange(name, DataKey(other, sequence, size)) <==>
            || other == name
            || name == Lower(other) + Dec(sequence)
            || (Lower(name) <= other && (|other| > |name| + 1 ==> other[|name| + 1] < UPPER_X))
  {
    var k, text, tail := DataKey(other, sequence, size), Dec(sequence), Dec(size);
    InRangeIff(name, k);
    ExtendsExactly(name, other, text, tail);
    assert text[0] in text && tail[0] in tail;
    assert k[|other|] == DASH && k[|other| + 1] == text[0] && k[|other| + 2 + |text|] == tail[0];
    assert forall i :: 0 <= i < |other| ==> k[i] == other[i];
  }

  /** Manifest keys intrude only from names that extend `name-`. */
  lemma ManifestIntrudersExactly(name: Key, other: Key)
    ensures InRange(name, ManifestKey(other)) <==>
            || other == name
            || (Lower(name) <= other && (|other| > |name| + 1 ==> other[|name| + 1] < UPPER_X))
  {
    var k := ManifestKey(other);
    var n, m := |name|, |other|;
    InRangeIff(name, k);
    assert k[..m] == other && k[m] == DASH && k[m + 1] == HASH;
    if Lower(name) <= k {
      assert k[..n] == name && k[n] == DASH;
      if n < m {
        assert Lower(name) == k[..n + 1] == other[..n + 1];
      }
    }
    if Lower(name) <= other {
      assert Lower(name) == other[..n + 1] == k[..n + 1];
    }
  }

  /** `std::string::rfind('-')`. */
  function LastDash(k: Key): (r: Option<nat>)
    ensures r.Some? ==> r.value < |k|
  {
    if k == [] then None
    else if k[|k| - 1] == DASH then Some(|k| - 1)
    else LastDash(k[..|k| - 1])
  }

  lemma {:induction false} LastDashAt(head: Bytes, tail: Bytes)
    requires DASH !in tail
    ensures LastDash(head + [DASH] + tail) == Some(|head|)
  {
    var k := head + [DASH] + tail;
    if tail == [] {
      assert k[|k| - 1] == DASH;
    } else {
      var last := tail[|tail| - 1];
      assert k[|k| - 1] == last && last in tail;
      assert k[..|k| - 1] == head + [DASH] + tail[..|tail| - 1];
      LastDashAt(head, tail[..|tail| - 1]);
    }
  }

  /** How a listed key splits on its last two dashes. */
  datatype Shape = NoDash | HashTail | Numbers(sequence: Option<Bytes>, size: Bytes)

  function Split(k: Key): Shape {
    var dash := LastDash(k);
    if dash.None? then NoDash
    else if dash.value + 1 < |k| && k[dash.value + 1] == HASH then HashTail
    else
      var head := k[..dash.value];
      var dash2 := LastDash(head);
      Numbers(if dash2.None? then None else Some(head[dash2.value + 1..]), k[dash.value + 1..])
  }

  datatype Parsed = Malformed | Manifest | Block(sequence: nat, size: nat) | Throws

  /** What KineticDownload::Prepare makes of one listed key. `Throws` is an exception of
      `std::stoi`; the size is read before the second dash is looked for. */
  function Parse(k: Key): Parsed {
    match Split(k)
    case NoDash => Malformed
    case HashTail => Manifest
    case Numbers(sequence, size) => ReadNumbers(sequence, Stoi(size))
  }

  function ReadNumbers(sequence: Option<Bytes>, size: Option<int>): Parsed
    requires size.Some? ==> -MAX_INT32 - 1 <= size.value
  {
    if size.None? then Throws
    else if sequence.None? then Malformed
    else
      var n := Stoi(sequence.value);
      if n.None? then Throws else Block(ToUint32(n.value), ToUint32(size.value))
  }

  /** Conversion of an `int` to `uint32_t`. */
  function ToUint32(n: int): nat
    requires -MAX_INT32 - 1 <= n
  {
    if 0 <= n then n else n + 2 * (MAX_INT32 + 1)
  }

  lemma DataKeyDashes(name: Key, sequence: nat, size: nat)
    ensures var k := DataKey(name, sequence, size);
            var head := Lower(name) + Dec(sequence);
            && LastDash(k) == Some(|head|)
            && k[..|head|] == head
            && k[|head| + 1..] == Dec(size)
            && LastDash(head) == Some(|name|)
            && head[|name| + 1..] == Dec(sequence)
  {
    var head := Lower(name) + Dec(sequence);
    assert DataKey(name, sequence, size) == head + [DASH] + Dec(size);
    LastDashAt(head, Dec(size));
    LastDashAt(name, Dec(sequence));
  }

  lemma SplitDataKey(name: Key, sequence: nat, size: nat)
    ensures Split(DataKey(name, sequence, size)) == Numbers(Some(Dec(sequence)), Dec(size))
  {
    var k, head := DataKey(name, sequence, size), Lower(name) + Dec(sequence);
    DataKeyDashes(name, sequence, size);
    SizeFollows(k, |head|, size);
    SplitAt(k, |head|, head, |name|, Dec(sequence), Dec(size));
  }

  lemma SizeFollows(k: Key, i: nat, size: nat)
    requires i < |k| && k[i + 1..] == Dec(size)
    ensures i + 1 < |k| && k[i + 1] != HASH
  {
    assert Dec(size)[0] in Dec(size);
    assert k[i + 1] == k[i + 1..][0];
  }

  lemma SplitAt(k: Key, i: nat, head: Bytes, j: nat, sequence: Bytes, size: Bytes)
    requires LastDash(k) == Some(i) && i + 1 < |k| && k[i + 1] != HASH
    requires k[..i] == head && LastDash(head) == Some(j) && head[j + 1..] == sequence && k[i + 1..] == size
    ensures Split(k) == Numbers(Some(sequence), size)
  {
  }

  /** Print then parse: a key gives its numbers back exactly when both fit an `int`. */
  lemma ParseDataKey(name: Key, sequence: nat, size: nat)
    ensures Parse(DataKey(name, sequence, size)) ==
            if sequence <= MAX_INT32 && size <= MAX_INT32 then Block(sequence, size) else Throws
  {
    SplitDataKey(name, sequence, size);
    StoiOfDec(sequence);
    StoiOfDec(size);
  }

  lemma ParseManifestKey(name: Key)
    ensures Parse(ManifestKey(name)) == Manifest
  {
    assert ManifestKey(name) == name + [DASH] + [HASH];
    LastDashAt(name, [HASH]);
  }

  lemma DataKeyInjective(name: Key, i: nat, s: nat, j: nat, t: nat)
    requires DataKey(name, i, s) == DataKey(name, j, t)
    ensures i == j && s == t
  {
    DataKeyDashes(name, i, s);
    DataKeyDashes(name, j, t);
    assert Lower(name) + Dec(i) == Lower(name) + Dec(j);
    assert (Lower(name) + Dec(i))[|name| + 1..] == Dec(i);
    PrintInjective(i, j, Decimal);
    PrintInjective(s, t, Decimal);
  }

  lemma ManifestIsNoDataKey(name: Key, sequence: nat, size: nat)
    ensures ManifestKey(name) != DataKey(name, sequence, size)
  {
    assert ManifestKey(name)[|name| + 1] == HASH;
    assert DataKey(name, sequence, size)[|name| + 1] == Dec(sequence)[0];
    assert Dec(sequence)[0] in Dec(sequence);
  }

  /** The keys as text: `name-sequence-size` in decimal, `name-#`, and the bounds `name-`, `name-X`. */
  lemma KeyText(name: Key, sequence: nat, size: nat)
    ensures DataKey(name, sequence, size) == name + [45] + Dec(sequence) + [45] + Dec(size)
    ensures ManifestKey(name) == name + [45] + [35]
    ensures Lower(name) == name + [45] && Upper(name) == name + [45] + [88]
  {
  }

  lemma {:induction false} NoDashNoLast(k: Key)
    ensures LastDash(k) == None <==> DashFree(k)
  {
    if k != [] {
      NoDashNoLast(k[..|k| - 1]);
      assert k == k[..|k| - 1] + [k[|k| - 1]];
    }
  }

  /** Without a dash a key is malformed. */
  lemma ParseNoDash(k: Key)
    requires DashFree(k)
    ensures Parse(k) == Malformed
  {
    NoDashNoLast(k);
  }

  /** With `#` behind the last dash it is a manifest, whatever surrounds it. */
  lemma ParseHash(head: Bytes, tail: Bytes)
    requires DashFree(tail)
    ensures Parse(head + [DASH] + ([HASH] + tail)) == Manifest
  {
    LastDashAt(head, [HASH] + tail);
  }

  /** With one dash only, the number behind it is read before the key is found malformed: one that
      is no `int` throws. */
  lemma ParseOneDash(head: Bytes, tail: Bytes)
    requires DashFree(head) && DashFree(tail) && (tail == [] || tail[0] != HASH)
    ensures Parse(head + [DASH] + tail) == if Stoi(tail) == None then Throws else Malformed
  {
    var k := head + [DASH] + tail;
    LastDashAt(head, tail);
    NoDashNoLast(head);
    assert k[..|head|] == head && k[|head| + 1..] == tail;
    assert tail != [] ==> k[|head| + 1] == tail[0];
  }

  /** With two, both numbers must be, and whatever follows their digits is ignored. */
  lemma ParseTwoDashes(name: Bytes, sequence: Bytes, size: Bytes)
    requires DashFree(sequence) && DashFree(size) && (size == [] || size[0] != HASH)
    ensures Parse(name + [DASH] + sequence + [DASH] + size) ==
            if Stoi(sequence) == None || Stoi(size) == None then Throws
            else Block(ToUint32(Stoi(sequence).value), ToUint32(Stoi(size).value))
  {
    var head := name + [DASH] + sequence;
    var k := head + [DASH] + size;
    LastDashAt(head, size);
    LastDashAt(name, sequence);
    assert k[..|head|] == head && k[|head| + 1..] == size && head[|name| + 1..] == sequence;
    assert size != [] ==> k[|head| + 1] == size[0];
  }

  /** A negative number in a key wraps to the upper half of the 32-bit range. */
  lemma NegativeWraps(n: int)
    requires -0x8000_0000 <= n <= 0x7fff_ffff
    ensures ToUint32(n) == if n < 0 then n + 0x1_0000_0000 else n
    ensures ToUint32(n) < 0x1_0000_0000
  {
  }
}
