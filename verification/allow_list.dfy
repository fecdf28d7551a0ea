/**
 The allow-list as `run()` reads it: the configured `allowed` input is split
 on newlines and the empty pieces are dropped. Pieces are kept exactly as
 written (no trimming, no case change) and in their original order.
 */
module AllowList {
  import opened Text

  /** The pieces of `ps` that are not the empty string, in their order (`filter((x) => x !== "")`). */
  function DropEmpty(ps: seq<string>): (r: seq<string>)
    ensures |r| <= |ps|
  {
    if |ps| == 0 then []
    else if ps[0] == "" then DropEmpty(ps[1..])
    else [ps[0]] + DropEmpty(ps[1..])
  }

  /** `DropEmpty` keeps exactly the non-empty pieces. */
  lemma {:induction false} DropEmptyMembers(ps: seq<string>)
    ensures forall i :: 0 <= i < |DropEmpty(ps)| ==> DropEmpty(ps)[i] != ""
    ensures forall x :: x in DropEmpty(ps) <==> x in ps && x != ""
  {
    if |ps| > 0 {
      DropEmptyMembers(ps[1..]);
      assert forall x :: x in ps <==> x == ps[0] || x in ps[1..];
    }
  }

  /** Dropping empties from a concatenation drops them from each part. */
  lemma {:induction false} DropEmptyConcat(a: seq<string>, b: seq<string>)
    ensures DropEmpty(a + b) == DropEmpty(a) + DropEmpty(b)
  {
    if |a| > 0 {
      assert (a + b)[1..] == a[1..] + b;
      DropEmptyConcat(a[1..], b);
    } else {
      assert a + b == b;
    }
  }

  /** True of a well-formed entry: non-empty and confined to one line. */
  predicate IsEntry(e: string)
  {
    e != "" && Newline !in e
  }

  /** The allow-list parsed from the raw configured string. */
  function Parse(raw: string): (entries: seq<string>)
    ensures forall i :: 0 <= i < |entries| ==> IsEntry(entries[i])
    ensures forall x :: x in entries <==> x != "" && x in Split(raw)
    ensures |entries| <= |Split(raw)|
  {
    var pieces := Split(raw);
    assert forall x :: x in pieces ==> Newline !in x;
    DropEmptyMembers(pieces);
    DropEmpty(pieces)
  }

  /** Writing well-formed entries one per line and parsing the result gives them back. */
  lemma ParseJoin(entries: seq<string>)
    requires forall i :: 0 <= i < |entries| ==> IsEntry(entries[i])
    ensures Parse(Join(entries)) == entries
  {
    if |entries| == 0 {
      assert Split("") == [""];
    } else {
      SplitJoin(entries);
      DropEmptyKeepsEntries(entries);
    }
  }

  /** `DropEmpty` leaves a list without empty strings unchanged. */
  lemma {:induction false} DropEmptyKeepsEntries(ps: seq<string>)
    requires forall i :: 0 <= i < |ps| ==> ps[i] != ""
    ensures DropEmpty(ps) == ps
  {
    if |ps| > 0 {
      DropEmptyKeepsEntries(ps[1..]);
    }
  }

  /**
   A newline in the scan finishes the current line, which is emitted
   unless it is empty.
   */
  lemma ScanStep(line: string, rest: string)
    requires Newline !in line
    ensures DropEmpty(Split(line + ([Newline] + rest))) == (if line != "" then [line] else []) + DropEmpty(Split(rest))
  {
    assert line + ([Newline] + rest) == line + [Newline] + rest;
    SplitAfterPiece(line, rest);
    DropEmptyConcat([line], Split(rest));
  }

  /**
   A one-pass scanner over the raw characters, as an independent reading of
   "split on newlines, drop empty lines": it collects the current line and
   emits it at each newline and at the end, unless it is empty.
   */
  method Scan(raw: string) returns (entries: seq<string>)
    ensures entries == Parse(raw)
  {
    entries := [];
    var line := "";
    var i := 0;
    assert line + raw[i..] == raw;
    while i < |raw|
      invariant 0 <= i <= |raw|
      invariant Newline !in line
      invariant DropEmpty(Split(raw)) == entries + DropEmpty(Split(line + raw[i..]))
    {
      var c := raw[i];
      ghost var rest := raw[i + 1..];
      ghost var target := DropEmpty(Split(raw));
      assert raw[i..] == [c] + rest;
      if c == Newline {
        ScanStep(line, rest);
        var emitted: seq<string> := if line != "" then [line] else [];
        assert target == (entries + emitted) + DropEmpty(Split(rest));
        entries := entries + emitted;
        line := "";
        assert line + rest == rest;
      } else {
        assert line + ([c] + rest) == (line + [c]) + rest;
        line := line + [c];
        assert target == entries + DropEmpty(Split(line + rest));
      }
      i := i + 1;
    }
    assert line + raw[i..] == line;
    SplitSingle(line);
    if line != "" {
      entries := entries + [line];
    }
  }
}
