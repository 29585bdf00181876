/**
 * The text operations `mac_to_byte` chains together: `str::split` on a `char`
 * pattern, then the bytes of every piece, flattened into one byte string.
 */
module Str {
  import opened Utf8

  /** Number of occurrences of `c` in `s`. */
  function Count(s: string, c: char): nat {
    if s == [] then 0 else (if s[0] == c then 1 else 0) + Count(s[1..], c)
  }

  /** `s` with every occurrence of `c` removed, the other characters kept in order. */
  function Remove(s: string, c: char): (r: string)
    ensures c !in r
    ensures forall x :: x in r ==> x in s
    ensures |r| == |s| - Count(s, c)
  {
    if s == [] then []
    else if s[0] == c then Remove(s[1..], c)
    else [s[0]] + Remove(s[1..], c)
  }

  /**
   * `s.split(sep)`: the maximal runs of `s` between occurrences of `sep`, in
   * order, including the empty runs before a leading, after a trailing and
   * between two adjacent separators.
   */
  function Split(s: string, sep: char): (pieces: seq<string>)
    ensures |pieces| == Count(s, sep) + 1
    ensures forall i :: 0 <= i < |pieces| ==> sep !in pieces[i]
  {
    if s == [] then [[]]
    else
      var rest := Split(s[1..], sep);
      if s[0] == sep then [[]] + rest
      else [[s[0]] + rest[0]] + rest[1..]
  }

  /** The pieces glued back together with `sep` between neighbours. */
  function Join(pieces: seq<string>, sep: char): string
    requires |pieces| > 0
  {
    if |pieces| == 1 then pieces[0] else pieces[0] + [sep] + Join(pieces[1..], sep)
  }

  /** The pieces one after another, with nothing between them. */
  function Concat(pieces: seq<string>): string {
    if pieces == [] then [] else pieces[0] + Concat(pieces[1..])
  }

  /** `pieces.map(|v| v.bytes()).flatten()`: the bytes of every piece, in order. */
  function FlattenBytes(pieces: seq<string>): (bytes: seq<uint8>)
    ensures bytes == Encode(Concat(pieces))
  {
    if pieces == [] then []
    else
      EncodeAppend(pieces[0], Concat(pieces[1..]));
      Encode(pieces[0]) + FlattenBytes(pieces[1..])
  }

  /** Splitting loses nothing: joining the pieces with the separator gives the input back. */
  lemma {:induction false} JoinSplit(s: string, sep: char)
    ensures Join(Split(s, sep), sep) == s
  {
    if s != [] {
      var rest := Split(s[1..], sep);
      JoinSplit(s[1..], sep);
      if s[0] == sep {
        assert ([[]] + rest)[1..] == rest;
      } else {
        var pieces := [[s[0]] + rest[0]] + rest[1..];
        if |rest| > 1 {
          assert pieces[1..] == rest[1..];
          assert Join(rest, sep) == rest[0] + [sep] + Join(rest[1..], sep);
        }
      }
    }
  }

  /** Removal distributes over concatenation. */
  lemma {:induction false} RemoveAppend(a: string, b: string, c: char)
    ensures Remove(a + b, c) == Remove(a, c) + Remove(b, c)
  {
    if a == [] {
      assert a + b == b;
    } else {
      assert (a + b)[1..] == a[1..] + b;
      RemoveAppend(a[1..], b, c);
    }
  }

  /** A string without `c` is left as it is. */
  lemma {:induction false} RemoveAbsent(s: string, c: char)
    requires c !in s
    ensures Remove(s, c) == s
  {
    if s != [] {
      assert c !in s[1..];
      RemoveAbsent(s[1..], c);
    }
  }

  /** A string made only of `c` vanishes. */
  lemma {:induction false} RemoveOnly(s: string, c: char)
    requires forall i :: 0 <= i < |s| ==> s[i] == c
    ensures Remove(s, c) == []
  {
    if s != [] {
      RemoveOnly(s[1..], c);
    }
  }

  /** Running the pieces of a split together is the input with every separator stripped. */
  lemma {:induction false} ConcatSplit(s: string, sep: char)
    ensures Concat(Split(s, sep)) == Remove(s, sep)
  {
    if s != [] {
      var rest := Split(s[1..], sep);
      ConcatSplit(s[1..], sep);
      if s[0] == sep {
        assert ([[]] + rest)[1..] == rest;
      } else {
        var pieces := [[s[0]] + rest[0]] + rest[1..];
        assert pieces[1..] == rest[1..];
        assert Concat(rest) == rest[0] + Concat(rest[1..]);
      }
    }
  }

  /**
   * Splitting on `sep` and flattening the pieces' bytes is the same as
   * encoding the input with every `sep` stripped, wherever it occurs.
   */
  lemma FlattenSplitIsRemove(s: string, sep: char)
    ensures FlattenBytes(Split(s, sep)) == Encode(Remove(s, sep))
  {
    ConcatSplit(s, sep);
  }

  /** Stripping the separator from a join of separator-free pieces leaves the pieces run together. */
  lemma {:induction false} RemoveJoin(pieces: seq<string>, sep: char)
    requires |pieces| > 0
    requires forall i :: 0 <= i < |pieces| ==> sep !in pieces[i]
    ensures Remove(Join(pieces, sep), sep) == Concat(pieces)
  {
    RemoveAbsent(pieces[0], sep);
    if |pieces| == 1 {
      assert Concat(pieces) == pieces[0] + Concat([]);
    } else {
      RemoveJoin(pieces[1..], sep);
      RemoveAppend(pieces[0] + [sep], Join(pieces[1..], sep), sep);
      RemoveAppend(pieces[0], [sep], sep);
      assert Remove([sep], sep) == [];
    }
  }
}
