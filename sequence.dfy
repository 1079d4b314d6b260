/**
 * The `Sequence` members of `Document`: each walks the document's iterator
 * and, where it builds a document, sets elements on a new empty one. Every
 * loop is proved against the function on entries that says what it returns.
 */
module DocumentSequence {
  import opened Bytes
  import opened Bson
  import opened Entries
  import opened Wire
  import opened Buffer
  import opened Iteration
  import opened Documents

  /** The leading run of `p` ends at the first entry that fails it. */
  lemma LeadingRunAt(es: seq<Entry>, p: Entry -> bool, i: nat)
    requires i <= |es| && forall j :: 0 <= j < i ==> p(es[j])
    requires i < |es| ==> !p(es[i])
    ensures LeadingRun(es, p) == i
  {
  }

  /** `isEmpty`: no keys. */
  function IsEmpty(d: Document): (b: bool)
    reads d, d.data
    requires d.Valid()
    ensures b <==> d.entries == []
  {
    d.Count() == 0
  }

  /** `values`: every iterated value, in order. */
  method Values(d: Document) returns (vs: seq<Value>)
    requires d.Valid()
    ensures vs == ValuesOf(d.entries)
  {
    ScanSerialize(d.entries);
    vs := ValuesBuffer(d.data, d.entries);
  }

  /** The `forEach` loop of `values`, over a buffer that iterates to `es`. */
  method ValuesBuffer(source: ByteBuffer, ghost es: seq<Entry>) returns (vs: seq<Value>)
    requires source.Valid() && 4 <= source.writerIndex && Ahead(source.Written(), 4, es, 0)
    ensures vs == ValuesOf(es)
  {
    ghost var buf := source.Written();
    var it := new DocumentIterator.Over(source);
    ghost var seen: nat := 0;
    vs := [];
    while true
      invariant Walking(it, buf, es, seen) && fresh(it.data)
      invariant |vs| == seen && forall j :: 0 <= j < seen ==> vs[j] == es[j].value
      decreases |buf| - it.data.readerIndex
    {
      var n := it.Advance(buf, es, seen);
      if n.End? {
        return;
      }
      vs := vs + [n.entry.value];
      seen := seen + 1;
    }
  }

  /**
   * `drop(while:)`: `filter` with a closure that answers false while the
   * elements satisfy `p` and true from the first one that does not on.
   */
  method DropWhile(d: Document, p: Entry -> bool) returns (out: Document)
    requires d.Valid()
    ensures fresh(out) && fresh(out.data) && out.Valid()
    ensures out.entries == DropWhileSeq(d.entries, p)
  {
    ScanSerialize(d.entries);
    out := DropWhileBuffer(d.data, d.entries, p);
  }

  /**
   * The `filter` loop of `drop(while:)`: while the closure is dropping it
   * only advances; from the first element that fails `p` it sets every
   * element on the output.
   */
  method DropWhileBuffer(source: ByteBuffer, ghost es: seq<Entry>, p: Entry -> bool) returns (out: Document)
    requires source.Valid() && 4 <= source.writerIndex && WellFormed(es)
    requires Ahead(source.Written(), 4, es, 0)
    ensures fresh(out) && fresh(out.data) && out.Valid()
    ensures out.entries == DropWhileSeq(es, p)
  {
    ghost var buf := source.Written();
    var it := new DocumentIterator.Over(source);
    var n;
    ghost var run;
    n, run := DropRun(it, buf, es, p);
    out := new Document();
    if n.End? {
      return;
    }
    // the closure's `drop` is false from here on
    SetAt(out, es, run, run, n.entry);
    CopyRest(it, buf, es, run, run + 1, out);
  }

  /**
   * The turns of `drop(while:)`'s loop while its closure is dropping: they
   * end on the first element that fails `p`, or at the end.
   */
  method DropRun(it: DocumentIterator, ghost buf: seq<byte>, ghost es: seq<Entry>, p: Entry -> bool)
      returns (n: Next, ghost run: nat)
    requires Walking(it, buf, es, 0)
    modifies it.data
    ensures run == LeadingRun(es, p)
    ensures n.Yield? || n.End?
    ensures n.End? <==> run == |es|
    ensures n.Yield? ==> run < |es| && n.entry == es[run] && Walking(it, buf, es, run + 1)
  {
    run := 0;
    n := it.Advance(buf, es, run);
    while n.Yield? && p(n.entry)
      invariant run <= |es|
      invariant n.Yield? || n.End?
      invariant n.End? <==> run == |es|
      invariant n.Yield? ==> run < |es| && n.entry == es[run] && Walking(it, buf, es, run + 1)
      invariant forall j :: 0 <= j < run ==> p(es[j])
      decreases |es| - run
    {
      n := it.Advance(buf, es, run + 1);
      run := run + 1;
    }
    LeadingRunAt(es, p, run);
  }

  /** `prefix(while:)`: set elements on a new document until `p` first fails. */
  method PrefixWhile(d: Document, p: Entry -> bool) returns (out: Document)
    requires d.Valid()
    ensures fresh(out) && fresh(out.data) && out.Valid()
    ensures out.entries == PrefixWhileSeq(d.entries, p)
  {
    ScanSerialize(d.entries);
    out := PrefixWhileBuffer(d.data, d.entries, p);
  }

  /** `prefix(while:)` over a buffer that iterates to `es`. */
  method PrefixWhileBuffer(source: ByteBuffer, ghost es: seq<Entry>, p: Entry -> bool) returns (out: Document)
    requires source.Valid() && 4 <= source.writerIndex && WellFormed(es)
    requires Ahead(source.Written(), 4, es, 0)
    ensures fresh(out) && fresh(out.data) && out.Valid()
    ensures out.entries == PrefixWhileSeq(es, p)
  {
    ghost var buf := source.Written();
    out := new Document();
    var it := new DocumentIterator.Over(source);
    PrefixWhileInto(it, buf, es, p, out);
  }

  /** The `for` loop of `prefix(while:)`: it stops at the first entry that fails `p`. */
  method PrefixWhileInto(it: DocumentIterator, ghost buf: seq<byte>, ghost es: seq<Entry>, p: Entry -> bool,
                         out: Document)
    requires WellFormed(es) && Walking(it, buf, es, 0)
    requires out.Valid() && it.data != out.data && out.entries == []
    modifies it.data, out, out.data
    ensures out.Valid() && out.data == old(out.data) && out.entries == PrefixWhileSeq(es, p)
  {
    ghost var seen: nat := 0;
    while true
      invariant Walking(it, buf, es, seen)
      invariant out.Valid() && out.data == old(out.data)
      invariant forall j :: 0 <= j < seen ==> p(es[j])
      invariant out.entries == es[0..seen]
      decreases |buf| - it.data.readerIndex
    {
      var n := it.Advance(buf, es, seen);
      if n.End? || !p(n.entry) {
        LeadingRunAt(es, p, seen);
        return;
      }
      SetAt(out, es, 0, seen, n.entry);
      seen := seen + 1;
    }
  }

  /**
   * `mapValues(_:)`: every key set on a new document to `f` of its value.
   * The results must be values the document can hold.
   */
  method MapValues(d: Document, f: Value -> Value) returns (out: Document)
    requires d.Valid() && WellFormed(MapValuesSeq(d.entries, f))
    ensures fresh(out) && fresh(out.data) && out.Valid()
    ensures out.entries == MapValuesSeq(d.entries, f)
  {
    ScanSerialize(d.entries);
    out := MapValuesBuffer(d.data, d.entries, f);
  }

  /** `mapValues(_:)` over a buffer that iterates to `es`. */
  method MapValuesBuffer(source: ByteBuffer, ghost es: seq<Entry>, f: Value -> Value) returns (out: Document)
    requires source.Valid() && 4 <= source.writerIndex && WellFormed(MapValuesSeq(es, f))
    requires Ahead(source.Written(), 4, es, 0)
    ensures fresh(out) && fresh(out.data) && out.Valid()
    ensures out.entries == MapValuesSeq(es, f)
  {
    ghost var buf := source.Written();
    out := new Document();
    var it := new DocumentIterator.Over(source);
    MapValuesInto(it, buf, es, f, out);
  }

  /**
   * The `for` loop of `mapValues(_:)` (Sources/SwiftBSON/Document+Sequence.swift:104-106):
   * every iterated key with `f` of its value. Its body is MapValuesTurn,
   * kept apart so that each proof stays small; the two are one source loop.
   */
  method MapValuesInto(it: DocumentIterator, ghost buf: seq<byte>, ghost es: seq<Entry>, f: Value -> Value,
                       out: Document)
    requires WellFormed(MapValuesSeq(es, f)) && Walking(it, buf, es, 0)
    requires out.Valid() && it.data != out.data && out.entries == []
    modifies it.data, out, out.data
    ensures out.Valid() && out.data == old(out.data) && out.entries == MapValuesSeq(es, f)
  {
    ghost var seen: nat := 0;
    while true
      invariant seen <= |es| && Walking(it, buf, es, seen)
      invariant out.Valid() && out.data == old(out.data) && out.entries == MapValuesSeq(es, f)[..seen]
      decreases |buf| - it.data.readerIndex
    {
      var n := MapValuesTurn(it, buf, es, f, seen, out);
      if n.End? {
        return;
      }
      seen := seen + 1;
    }
  }

  /**
   * The body of `mapValues(_:)`'s one loop (see MapValuesInto): iterate one
   * entry and set its key to `f` of its value.
   */
  method MapValuesTurn(it: DocumentIterator, ghost buf: seq<byte>, ghost es: seq<Entry>, f: Value -> Value,
                       ghost seen: nat, out: Document) returns (n: Next)
    requires WellFormed(MapValuesSeq(es, f)) && seen <= |es| && Walking(it, buf, es, seen)
    requires out.Valid() && it.data != out.data && out.entries == MapValuesSeq(es, f)[..seen]
    modifies it.data, out, out.data
    ensures out.Valid() && out.data == old(out.data)
    ensures n.Yield? || n.End?
    ensures n.End? ==> out.entries == MapValuesSeq(es, f)
    ensures n.Yield? ==> old(it.data.readerIndex) < it.data.readerIndex && seen < |es|
    ensures n.Yield? ==> Walking(it, buf, es, seen + 1) && out.entries == MapValuesSeq(es, f)[..seen + 1]
  {
    ghost var ms := MapValuesSeq(es, f);
    n := it.Advance(buf, es, seen);
    if n.End? {
      assert ms[..seen] == ms;
    } else {
      SetAt(out, ms, 0, seen, Entry(n.entry.key, f(n.entry.value)));
      assert ms[0..seen + 1] == ms[..seen + 1];
    }
  }

  // ---------------------------------------------------------------------
  // dropFirst, dropLast, prefix and suffix

  /** How a count-taking member ends: a trap, a document, or a call to itself. */
  datatype Cut = Fatal | Returns(entries: seq<Entry>) | CallsItself

  /** `dropFirst(_:)` as written: the default case calls `dropFirst(n)` again. */
  function DropFirstAsWritten(es: seq<Entry>, n: int): (c: Cut)
    ensures c.Fatal? <==> n < 0
    ensures c.CallsItself? <==> 0 < n
  {
    if n < 0 then Fatal else if n == 0 then Returns(es) else CallsItself
  }

  /** `dropLast(_:)` as written: the default case calls `dropLast(n)` again. */
  function DropLastAsWritten(es: seq<Entry>, n: int): (c: Cut)
    ensures c.Fatal? <==> n < 0
    ensures c.CallsItself? <==> 0 < n
  {
    if n < 0 then Fatal else if n == 0 then Returns(es) else CallsItself
  }

  /**
   * `prefix(_:)` as written: `[:]` for 0, the document itself when it has
   * no more than `n` keys, and otherwise a call to `prefix(n)` again.
   */
  function PrefixAsWritten(es: seq<Entry>, n: int): (c: Cut)
    ensures c.Fatal? <==> n < 0
    ensures c.CallsItself? <==> 0 < n < |es|
  {
    if n < 0 then Fatal
    else if n == 0 then Returns([])
    else if |es| <= n then Returns(es)
    else CallsItself
  }

  /**
   * `suffix(_:)` as written: `[:]` for 0, the document itself when
   * `count - n <= 0`, and otherwise a call to `suffix(n)` again.
   */
  function SuffixAsWritten(es: seq<Entry>, n: int): (c: Cut)
    ensures c.Fatal? <==> n < 0
    ensures c.CallsItself? <==> 0 < n < |es|
  {
    if n < 0 then Fatal
    else if n == 0 then Returns([])
    else if |es| - n <= 0 then Returns(es)
    else CallsItself
  }

  function Min(a: nat, b: nat): nat { if a <= b then a else b }

  /**
   * Where the members as written return, they return what the `Sequence`
   * operations promise; they fail to return exactly on the other counts.
   */
  lemma {:induction false} CutsAgreeWhereTheyReturn(es: seq<Entry>, n: nat)
    ensures DropFirstAsWritten(es, n).Returns? ==> DropFirstAsWritten(es, n).entries == es[Min(n, |es|)..]
    ensures DropLastAsWritten(es, n).Returns? ==> DropLastAsWritten(es, n).entries == es[..|es| - Min(n, |es|)]
    ensures PrefixAsWritten(es, n).Returns? ==> PrefixAsWritten(es, n).entries == es[..Min(n, |es|)]
    ensures SuffixAsWritten(es, n).Returns? ==> SuffixAsWritten(es, n).entries == es[|es| - Min(n, |es|)..]
  {
    if n == 0 {
      assert es[..|es|] == es;
    }
  }

  /**
   * Documents of one and of two keys with a count of 1: none of the four
   * returns, though each intended result exists.
   */
  lemma CutsDiverge()
    ensures DropFirstAsWritten([Entry([0x61], I32(1))], 1) == CallsItself
    ensures DropLastAsWritten([Entry([0x61], I32(1))], 1) == CallsItself
    ensures PrefixAsWritten([Entry([0x61], I32(1)), Entry([0x62], I32(2))], 1) == CallsItself
    ensures SuffixAsWritten([Entry([0x61], I32(1)), Entry([0x62], I32(2))], 1) == CallsItself
  {
  }

  /**
   * The entries at positions lo..hi, set one by one on a new document: the
   * loop the intended `dropFirst`, `dropLast`, `prefix` and `suffix` share.
   */
  method Slice(d: Document, lo: nat, hi: nat) returns (out: Document)
    requires d.Valid() && lo <= hi <= |d.entries|
    ensures fresh(out) && fresh(out.data) && out.Valid()
    ensures out.entries == d.entries[lo..hi]
    ensures hi == |d.entries| ==> out.entries == d.entries[lo..]
  {
    ScanSerialize(d.entries);
    out := SliceBuffer(d.data, d.entries, lo, hi);
  }

  method SliceBuffer(source: ByteBuffer, ghost es: seq<Entry>, lo: nat, hi: nat) returns (out: Document)
    requires source.Valid() && 4 <= source.writerIndex && WellFormed(es)
    requires Ahead(source.Written(), 4, es, 0) && lo <= hi <= |es|
    ensures fresh(out) && fresh(out.data) && out.Valid()
    ensures out.entries == es[lo..hi]
  {
    ghost var buf := source.Written();
    var it := new DocumentIterator.Over(source);
    Skip(it, buf, es, 0, lo);
    out := new Document();
    CopyUntil(it, buf, es, lo, lo, hi, out);
  }

  /** Iterates past the entries at positions from..to without using them. */
  method Skip(it: DocumentIterator, ghost buf: seq<byte>, ghost es: seq<Entry>, from: nat, to: nat)
    requires from <= to <= |es| && Walking(it, buf, es, from)
    modifies it.data
    ensures Walking(it, buf, es, to)
  {
    var seen: nat := from;
    while seen < to
      invariant from <= seen <= to && Walking(it, buf, es, seen)
    {
      var _ := it.Advance(buf, es, seen);
      seen := seen + 1;
    }
  }

  /**
   * One turn of a copying loop: iterate one entry and set it on `out`, which
   * holds the entries lo..seen already. It is the body of CopyUntil's and
   * CopyRest's loops; in `drop(while:)` those turns are the turns of the
   * single `filter` loop of Sources/SwiftBSON/Document+Sequence.swift:45-57
   * once its closure stops dropping, split off so that each proof stays small.
   */
  method CopyStep(it: DocumentIterator, ghost buf: seq<byte>, ghost es: seq<Entry>, ghost lo: nat,
                  ghost seen: nat, out: Document) returns (n: Next)
    requires WellFormed(es) && lo <= seen <= |es| && Walking(it, buf, es, seen)
    requires out.Valid() && it.data != out.data && out.entries == es[lo..seen]
    modifies it.data, out, out.data
    ensures out.Valid() && out.data == old(out.data)
    ensures n.Yield? || n.End?
    ensures n.End? <==> seen == |es|
    ensures n.End? ==> out.entries == es[lo..]
    ensures n.Yield? ==> old(it.data.readerIndex) < it.data.readerIndex && Walking(it, buf, es, seen + 1)
    ensures n.Yield? ==> out.entries == es[lo..seen + 1]
  {
    n := it.Advance(buf, es, seen);
    if n.Yield? {
      SetAt(out, es, lo, seen, n.entry);
    }
  }

  /**
   * Sets entry `i` on `out`, which holds the entries lo..i: the
   * `output[k] = v` inside each copying loop's body.
   */
  method SetAt(out: Document, ghost es: seq<Entry>, ghost lo: nat, ghost i: nat, e: Entry)
    requires WellFormed(es) && lo <= i < |es| && e == es[i]
    requires out.Valid() && out.entries == es[lo..i]
    modifies out, out.data
    ensures out.Valid() && out.data == old(out.data) && out.entries == es[lo..i + 1]
  {
    SliceStep(es, lo, i);
    out.Append(e.key, e.value);
  }

  /**
   * Sets the iterated entries at positions from..hi on `out`, which holds
   * the entries lo..from already.
   */
  method CopyUntil(it: DocumentIterator, ghost buf: seq<byte>, ghost es: seq<Entry>, ghost lo: nat,
                   from: nat, hi: nat, out: Document)
    requires WellFormed(es) && lo <= from <= hi <= |es| && Walking(it, buf, es, from)
    requires out.Valid() && it.data != out.data && out.entries == es[lo..from]
    modifies it.data, out, out.data
    ensures out.Valid() && out.data == old(out.data) && out.entries == es[lo..hi]
  {
    var seen: nat := from;
    while seen < hi
      invariant from <= seen <= hi && Walking(it, buf, es, seen)
      invariant out.Valid() && out.data == old(out.data) && out.entries == es[lo..seen]
    {
      var _ := CopyStep(it, buf, es, lo, seen, out);
      seen := seen + 1;
    }
  }

  /**
   * Sets every remaining iterated entry on `out`, which holds the entries
   * lo..from already.
   */
  method CopyRest(it: DocumentIterator, ghost buf: seq<byte>, ghost es: seq<Entry>, ghost lo: nat,
                  ghost from: nat, out: Document)
    requires WellFormed(es) && lo <= from <= |es| && Walking(it, buf, es, from)
    requires out.Valid() && it.data != out.data && out.entries == es[lo..from]
    modifies it.data, out, out.data
    ensures out.Valid() && out.data == old(out.data) && out.entries == es[lo..]
  {
    ghost var seen: nat := from;
    while true
      invariant lo <= seen <= |es| && Walking(it, buf, es, seen)
      invariant out.Valid() && out.data == old(out.data) && out.entries == es[lo..seen]
      decreases |buf| - it.data.readerIndex
    {
      var n := CopyStep(it, buf, es, lo, seen, out);
      if n.End? {
        return;
      }
      seen := seen + 1;
    }
  }

  /** `dropFirst(_:)` as intended: all but the first `n` entries. */
  method DropFirst(d: Document, n: nat) returns (out: Document)
    requires d.Valid()
    ensures fresh(out) && out.Valid()
    ensures out.entries == d.entries[Min(n, |d.entries|)..]
  {
    var count := d.Count();
    out := Slice(d, Min(n, count), count);
  }

  /** `dropLast(_:)` as intended: all but the last `n` entries. */
  method DropLast(d: Document, n: nat) returns (out: Document)
    requires d.Valid()
    ensures fresh(out) && out.Valid()
    ensures out.entries == d.entries[..|d.entries| - Min(n, |d.entries|)]
  {
    var count := d.Count();
    out := Slice(d, 0, count - Min(n, count));
  }

  /** `prefix(_:)` as intended: the first `n` entries, or all of them. */
  method Prefix(d: Document, n: nat) returns (out: Document)
    requires d.Valid()
    ensures fresh(out) && out.Valid()
    ensures out.entries == d.entries[..Min(n, |d.entries|)]
  {
    var count := d.Count();
    out := Slice(d, 0, Min(n, count));
  }

  /** `suffix(_:)` as intended: the last `n` entries, or all of them. */
  method Suffix(d: Document, n: nat) returns (out: Document)
    requires d.Valid()
    ensures fresh(out) && out.Valid()
    ensures out.entries == d.entries[|d.entries| - Min(n, |d.entries|)..]
  {
    var count := d.Count();
    var lo := count - Min(n, count);
    out := Slice(d, lo, count);

  }
}
