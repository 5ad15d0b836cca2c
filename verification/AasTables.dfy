/** The fourteen tables of an AAS file as they lie in memory, and the swapping of their fields. */
module AasTables {
  import opened Bytes

  const AAS_LUMPS := 14

  /** The widths of the fields of an element, lump by lump. The two bytes of padding at the end of a
      reachability count as fields of their own, for a single byte is never swapped. */
  const FIELDS: seq<seq<nat>> := [
    [4, 4, 4, 4, 4, 4, 4, 4],
    [4, 4, 4],
    [4, 4, 4, 4, 4],
    [4, 4],
    [4],
    [4, 4, 4, 4, 4, 4],
    [4],
    [4, 4, 4, 4, 4, 4, 4, 4, 4, 4, 4, 4],
    [4, 4, 4, 4, 4, 4, 4],
    [4, 4, 4, 4, 4, 4, 4, 4, 4, 4, 2, 1, 1],
    [4, 4, 4],
    [4, 4, 4, 4, 4],
    [4],
    [4, 4, 4, 4]]

  function Sum(widths: seq<nat>): nat {
    if widths == [] then 0 else widths[0] + Sum(widths[1..])
  }

  // ----- swapping

  /** An element with the bytes of every field reversed. */
  function SwappedFields(widths: seq<nat>, b: seq<Byte>): (r: seq<Byte>)
    requires |b| == Sum(widths)
    ensures |r| == |b|
  {
    if widths == [] then [] else Reversed(b[..widths[0]]) + SwappedFields(widths[1..], b[widths[0]..])
  }

  lemma Split(x: seq<Byte>, y: seq<Byte>)
    ensures (x + y)[..|x|] == x && (x + y)[|x|..] == y
  {
  }

  lemma SwappedFieldsOf(widths: seq<nat>, head: seq<Byte>, tail: seq<Byte>)
    requires widths != [] && |head| == widths[0] && |tail| == Sum(widths[1..])
    ensures SwappedFields(widths, head + tail) == Reversed(head) + SwappedFields(widths[1..], tail)
  {
    Split(head, tail);
  }

  lemma {:induction false} SwappedFieldsTwice(widths: seq<nat>, b: seq<Byte>)
    requires |b| == Sum(widths)
    ensures SwappedFields(widths, SwappedFields(widths, b)) == b
  {
    if widths != [] {
      var head, tail := b[..widths[0]], b[widths[0]..];
      assert b == head + tail;
      SwappedFieldsOf(widths, head, tail);
      SwappedFieldsOf(widths, Reversed(head), SwappedFields(widths[1..], tail));
      ReversedTwice(head);
      SwappedFieldsTwice(widths[1..], tail);
    }
  }

  /** A table with all its elements swapped. Bytes after the last whole element stay as they are. */
  function Swapped(widths: seq<nat>, b: seq<Byte>): (r: seq<Byte>)
    ensures |r| == |b|
    decreases |b|
  {
    var size := Sum(widths);
    if size == 0 || |b| < size then b else SwappedFields(widths, b[..size]) + Swapped(widths, b[size..])
  }

  lemma SwappedOf(widths: seq<nat>, head: seq<Byte>, tail: seq<Byte>)
    requires |head| == Sum(widths) > 0
    ensures Swapped(widths, head + tail) == SwappedFields(widths, head) + Swapped(widths, tail)
  {
    Split(head, tail);
  }

  lemma {:induction false} SwappedTwice(widths: seq<nat>, b: seq<Byte>)
    ensures Swapped(widths, Swapped(widths, b)) == b
    decreases |b|
  {
    var size := Sum(widths);
    if size == 0 || |b| < size {
    } else {
      var head, tail := b[..size], b[size..];
      assert b == head + tail;
      SwappedOf(widths, head, tail);
      SwappedOf(widths, SwappedFields(widths, head), Swapped(widths, tail));
      SwappedFieldsTwice(widths, head);
      SwappedTwice(widths, tail);
    }
  }

  /** A table of a machine in the byte order of the file, and back. */
  function InFileOrder(host: Host, widths: seq<nat>, b: seq<Byte>): (r: seq<Byte>)
    ensures |r| == |b|
  {
    if host == Big then Swapped(widths, b) else b
  }

  lemma InFileOrderTwice(host: Host, widths: seq<nat>, b: seq<Byte>)
    ensures InFileOrder(host, widths, InFileOrder(host, widths, b)) == b
  {
    SwappedTwice(widths, b);
  }

  // ----- the values of fields

  /** The bytes of an element's field, lowest first. */
  function FieldValue(host: Host, b: seq<Byte>): seq<Byte> {
    if host == Big then Reversed(b) else b
  }

  function ElementValues(host: Host, widths: seq<nat>, b: seq<Byte>): seq<seq<Byte>>
    requires |b| == Sum(widths)
  {
    if widths == [] then []
    else [FieldValue(host, b[..widths[0]])] + ElementValues(host, widths[1..], b[widths[0]..])
  }

  /** What a machine takes a table to mean: the values of the fields of its elements. */
  function Values(host: Host, widths: seq<nat>, b: seq<Byte>): seq<seq<seq<Byte>>>
    decreases |b|
  {
    var size := Sum(widths);
    if size == 0 || |b| < size then []
    else [ElementValues(host, widths, b[..size])] + Values(host, widths, b[size..])
  }

  /** A table of whole elements has a list of values for each of them, in order. */
  lemma {:induction false} ElementOfTable(host: Host, widths: seq<nat>, b: seq<Byte>, n: nat, j: nat)
    requires |b| == n * Sum(widths) && Sum(widths) > 0 && j < n
    ensures 0 <= j * Sum(widths) && j * Sum(widths) + Sum(widths) <= |b|
    ensures |Values(host, widths, b)| == n
    ensures Values(host, widths, b)[j]
      == ElementValues(host, widths, b[j * Sum(widths)..j * Sum(widths) + Sum(widths)])
    decreases n
  {
    hide ElementValues;
    var size := Sum(widths);
    Elements(n - 1, j, size);
    var rest := b[size..];
    if n == 1 {
      assert |Values(host, widths, rest)| == 0;
    } else if j == 0 {
      ElementOfTable(host, widths, rest, n - 1, 0);
    } else {
      Elements(n - 2, j - 1, size);
      ElementOfTable(host, widths, rest, n - 1, j - 1);
      assert rest[(j - 1) * size..(j - 1) * size + size] == b[j * size..j * size + size];
    }
  }

  lemma Elements(m: int, j: nat, size: nat)
    requires j <= m
    ensures (m + 1) * size == m * size + size && 0 <= j * size <= m * size
    ensures j > 0 ==> j * size == (j - 1) * size + size
  {
  }

  /** The values of an element are those of its fields, each behind the fields before it. */
  lemma {:induction false} FieldOfElement(host: Host, widths: seq<nat>, b: seq<Byte>, f: nat)
    requires |b| == Sum(widths) && f < |widths|
    ensures |ElementValues(host, widths, b)| == |widths| && Sum(widths[..f]) + widths[f] <= |b|
    ensures ElementValues(host, widths, b)[f] == FieldValue(host, b[Sum(widths[..f])..Sum(widths[..f]) + widths[f]])
    decreases |widths|
  {
    hide FieldValue;
    var w, rest := widths[0], b[widths[0]..];
    if |widths| == 1 {
      assert |ElementValues(host, widths[1..], rest)| == 0;
      assert b[..w] == b[0..w];
    } else if f == 0 {
      FieldOfElement(host, widths[1..], rest, 0);
      assert b[..w] == b[0..w];
    } else {
      FieldOfElement(host, widths[1..], rest, f - 1);
      assert widths[..f][1..] == widths[1..][..f - 1] && widths[..f][0] == w;
      var at := Sum(widths[1..][..f - 1]);
      assert rest[at..at + widths[f]] == b[w + at..w + at + widths[f]];
    }
  }

  lemma {:induction false} SwappedFieldValues(widths: seq<nat>, b: seq<Byte>)
    requires |b| == Sum(widths)
    ensures ElementValues(Big, widths, b) == ElementValues(Little, widths, SwappedFields(widths, b))
  {
    if widths != [] {
      var w := widths[0];
      var r := SwappedFields(widths, b);
      assert r[..w] == Reversed(b[..w]) && r[w..] == SwappedFields(widths[1..], b[w..]);
      SwappedFieldValues(widths[1..], b[w..]);
    }
  }

  /** In the order of the file a table means to a little-endian machine what it meant to its own. */
  lemma {:induction false} FileOrderKeepsValues(host: Host, widths: seq<nat>, b: seq<Byte>)
    ensures Values(Little, widths, InFileOrder(host, widths, b)) == Values(host, widths, b)
    decreases |b|
  {
    var size := Sum(widths);
    if host == Big && size != 0 && size <= |b| {
      var r := Swapped(widths, b);
      assert r[..size] == SwappedFields(widths, b[..size]) && r[size..] == Swapped(widths, b[size..]);
      SwappedFieldValues(widths, b[..size]);
      FileOrderKeepsValues(host, widths, b[size..]);
    }
  }

  // ----- swapping in place

  function Mirror(at: nat, width: nat, i: int, k: int): int {
    if at <= k < at + i || at + width - i <= k < at + width then 2 * at + width - 1 - k else k
  }

  lemma MirroredField(s: seq<Byte>, t: seq<Byte>, at: nat, width: nat)
    requires at + width <= |s| == |t|
    requires forall k :: 0 <= k < |s| ==> t[k] == s[Mirror(at, width, width / 2, k)]
    ensures t == s[..at] + Reversed(s[at..at + width]) + s[at + width..]
  {
    var field := s[at..at + width];
    forall k | 0 <= k < |s|
      ensures t[k] == (s[..at] + Reversed(field) + s[at + width..])[k]
    {
      if at <= k < at + width {
        assert field[at + width - 1 - k] == s[2 * at + width - 1 - k];
      }
    }
  }

  /** Reverses the bytes of one field. */
  method SwapField(a: array<Byte>, at: nat, width: nat)
    requires at + width <= a.Length
    modifies a
    ensures a[..] == old(a[..at]) + Reversed(old(a[at..at + width])) + old(a[at + width..])
  {
    ghost var s := a[..];
    var i := 0;
    while i < width / 2
      invariant 0 <= i <= width / 2
      invariant forall k :: 0 <= k < a.Length ==> a[k] == s[Mirror(at, width, i, k)]
    {
      a[at + i], a[at + width - 1 - i] := a[at + width - 1 - i], a[at + i];
      i := i + 1;
    }
    MirroredField(s, a[..], at, width);
  }

  /** What holds when the first i fields of the element between two places have been swapped. */
  ghost predicate ElementMidway(s: seq<Byte>, t: seq<Byte>, at: nat, end: nat, widths: seq<nat>, i: nat, offset: nat) {
    && i <= |widths| && at <= offset && offset + Sum(widths[i..]) == end <= |s| == |t|
    && at + Sum(widths) == end
    && t[offset..] == s[offset..]
    && t[..offset] + SwappedFields(widths[i..], s[offset..end]) == s[..at] + SwappedFields(widths, s[at..end])
  }

  lemma ElementStarts(s: seq<Byte>, at: nat, widths: seq<nat>)
    requires at + Sum(widths) <= |s|
    ensures ElementMidway(s, s, at, at + Sum(widths), widths, 0, at)
  {
    assert widths[0..] == widths;
  }

  lemma SumNext(widths: seq<nat>, i: nat)
    requires i < |widths|
    ensures widths[i..][1..] == widths[i + 1..] && Sum(widths[i..]) == widths[i] + Sum(widths[i + 1..])
  {
  }

  lemma ElementGoesOn(s: seq<Byte>, t: seq<Byte>, at: nat, end: nat, widths: seq<nat>, i: nat, offset: nat)
    requires ElementMidway(s, t, at, end, widths, i, offset) && i < |widths|
    ensures offset + widths[i] <= |t|
    ensures ElementMidway(s, t[..offset] + Reversed(t[offset..offset + widths[i]]) + t[offset + widths[i]..],
                          at, end, widths, i + 1, offset + widths[i])
  {
    hide SwappedFields, Reversed, Sum;
    var rest, next := widths[i..], offset + widths[i];
    assert rest[1..] == widths[i + 1..] && Sum(rest) == widths[i] + Sum(rest[1..]) by { SumNext(widths, i); }
    SuffixOfSuffix(s, t, offset, next);
    var head, tail := s[offset..next], s[next..end];
    assert s[offset..end] == head + tail;
    SwappedFieldsOf(rest, head, tail);
    Regrouped(t[..offset], Reversed(head), s[next..]);
    Regrouped(t[..offset], Reversed(head), SwappedFields(widths[i + 1..], tail));
  }

  lemma ElementEnds(s: seq<Byte>, t: seq<Byte>, at: nat, end: nat, widths: seq<nat>, offset: nat)
    requires ElementMidway(s, t, at, end, widths, |widths|, offset)
    ensures t == s[..at] + SwappedFields(widths, s[at..end]) + s[end..]
  {
    assert t == t[..offset] + t[offset..];
  }

  /** Swaps the fields of one element. */
  method SwapElement(a: array<Byte>, at: nat, widths: seq<nat>)
    requires at + Sum(widths) <= a.Length
    modifies a
    ensures a[..] == old(a[..at]) + SwappedFields(widths, old(a[at..at + Sum(widths)])) + old(a[at + Sum(widths)..])
  {
    hide ElementMidway, Sum, SwappedFields, Reversed;
    ghost var s, end := a[..], at + Sum(widths);
    assert ElementMidway(s, s, at, end, widths, 0, at) by { ElementStarts(s, at, widths); }
    var i, offset: nat := 0, at;
    while i < |widths|
      invariant 0 <= i <= |widths| && ElementMidway(s, a[..], at, end, widths, i, offset)
    {
      ghost var t := a[..];
      assert offset + widths[i] <= |t| by { ElementGoesOn(s, t, at, end, widths, i, offset); }
      SwapField(a, offset, widths[i]);
      assert ElementMidway(s, a[..], at, end, widths, i + 1, offset + widths[i]) by {
        ElementGoesOn(s, t, at, end, widths, i, offset);
      }
      offset := offset + widths[i];
      i := i + 1;
    }
    assert a[..] == s[..at] + SwappedFields(widths, s[at..end]) + s[end..] by {
      ElementEnds(s, a[..], at, end, widths, offset);
    }
  }

  /** What holds when the elements of a table below some place have been swapped. */
  ghost predicate TableMidway(s: seq<Byte>, t: seq<Byte>, widths: seq<nat>, at: nat) {
    at <= |s| == |t| && t[at..] == s[at..] && t[..at] + Swapped(widths, s[at..]) == Swapped(widths, s)
  }

  lemma SuffixOfSuffix(s: seq<Byte>, t: seq<Byte>, at: nat, next: nat)
    requires at <= next <= |s| == |t| && t[at..] == s[at..]
    ensures t[at..next] == s[at..next] && t[next..] == s[next..]
  {
    assert t[at..next] == t[at..][..next - at] && t[next..] == t[at..][next - at..];
  }

  lemma Regrouped(x: seq<Byte>, y: seq<Byte>, z: seq<Byte>)
    ensures (x + y) + z == x + (y + z)
    ensures (x + y + z)[..|x| + |y|] == x + y && (x + y + z)[|x| + |y|..] == z
  {
  }

  lemma TableGoesOn(s: seq<Byte>, t: seq<Byte>, widths: seq<nat>, at: nat)
    requires TableMidway(s, t, widths, at) && Sum(widths) > 0 && at + Sum(widths) <= |s|
    ensures TableMidway(s, t[..at] + SwappedFields(widths, t[at..at + Sum(widths)]) + t[at + Sum(widths)..],
                        widths, at + Sum(widths))
  {
    hide Swapped, SwappedFields, Sum;
    var next := at + Sum(widths);
    SuffixOfSuffix(s, t, at, next);
    var head, rest := s[at..next], s[next..];
    assert s[at..] == head + rest;
    SwappedOf(widths, head, rest);
    Regrouped(t[..at], SwappedFields(widths, head), rest);
    Regrouped(t[..at], SwappedFields(widths, head), Swapped(widths, rest));
  }

  lemma SwappedShort(widths: seq<nat>, b: seq<Byte>)
    requires |b| < Sum(widths)
    ensures Swapped(widths, b) == b
  {
  }

  lemma TableEnds(s: seq<Byte>, t: seq<Byte>, widths: seq<nat>, at: nat)
    requires TableMidway(s, t, widths, at) && |s| < at + Sum(widths)
    ensures t == Swapped(widths, s)
  {
    hide Swapped, Sum;
    SwappedShort(widths, s[at..]);
    assert t == t[..at] + t[at..];
  }

  /** Swaps a table on a machine that keeps highest bytes first, and else leaves it alone. */
  method SwapTable(a: array<Byte>, widths: seq<nat>, host: Host)
    requires Sum(widths) > 0
    modifies a
    ensures a[..] == InFileOrder(host, widths, old(a[..]))
  {
    hide TableMidway, Sum, SwappedFields, Swapped;
    if host == Little { return; }
    ghost var s := a[..];
    assert TableMidway(s, s, widths, 0) by { TableStarts(s, widths); }
    var at: nat, size := 0, Sum(widths);
    while at + size <= a.Length
      invariant at <= a.Length && TableMidway(s, a[..], widths, at)
    {
      ghost var t := a[..];
      SwapElement(a, at, widths);
      assert TableMidway(s, a[..], widths, at + size) by { TableGoesOn(s, t, widths, at); }
      at := at + size;
    }
    assert a[..] == Swapped(widths, s) by { TableEnds(s, a[..], widths, at); }
  }

  lemma TableStarts(s: seq<Byte>, widths: seq<nat>)
    ensures TableMidway(s, s, widths, 0)
  {
    assert s[0..] == s;
  }
}
