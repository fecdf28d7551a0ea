/**
 Strings as the action sees them: ASCII lower-casing (the model of
 `String.prototype.toLowerCase`) and splitting/joining on the newline
 character (the model of `String.prototype.split("\n")` and
 `Array.prototype.join("\n")`).
 */
module Text {

  const Newline: char := '\n'

  /** Lower-cases one character; only the ASCII letters `A`..`Z` change. */
  function LowerChar(c: char): char
  {
    if 'A' <= c <= 'Z' then (c as int + 32) as char else c
  }

  /** True of characters that `LowerChar` leaves alone. */
  predicate IsLowerFixed(c: char)
  {
    !('A' <= c <= 'Z')
  }

  /** The lower-case form of a string, character by character; it keeps the length. */
  function Lower(s: string): (r: string)
    ensures |r| == |s|
  {
    if |s| == 0 then "" else [LowerChar(s[0])] + Lower(s[1..])
  }

  /**
   Lower-casing maps each character on its own, leaves no upper-case ASCII
   letter behind, and changes nothing when applied a second time.
   */
  lemma {:induction false} LowerIsPointwise(s: string)
    ensures forall i :: 0 <= i < |s| ==> Lower(s)[i] == LowerChar(s[i])
    ensures forall i :: 0 <= i < |s| ==> IsLowerFixed(Lower(s)[i])
    ensures Lower(Lower(s)) == Lower(s)
  {
    if |s| > 0 {
      LowerIsPointwise(s[1..]);
      assert Lower(Lower(s)) == [LowerChar(LowerChar(s[0]))] + Lower(Lower(s[1..])) by {
        assert Lower(s)[0] == LowerChar(s[0]);
        assert Lower(s)[1..] == Lower(s[1..]);
      }
    }
  }

  /** The comparison the action applies: both sides lower-cased, then compared. */
  predicate SameIgnoringCase(a: string, b: string)
  {
    Lower(a) == Lower(b)
  }

  /** Case-insensitive equality is an equivalence that only relates strings of equal length. */
  lemma SameIgnoringCaseIsEquivalence(a: string, b: string, c: string)
    ensures SameIgnoringCase(a, a)
    ensures SameIgnoringCase(a, b) ==> SameIgnoringCase(b, a)
    ensures SameIgnoringCase(a, b) && SameIgnoringCase(b, c) ==> SameIgnoringCase(a, c)
    ensures SameIgnoringCase(a, b) ==> |a| == |b|
  {
    assert |Lower(a)| == |a| && |Lower(b)| == |b|;
  }

  /** `Join(ps)` glues the pieces with one newline between neighbours (JavaScript `ps.join("\n")`). */
  function Join(ps: seq<string>): string
  {
    if |ps| == 0 then ""
    else if |ps| == 1 then ps[0]
    else ps[0] + [Newline] + Join(ps[1..])
  }

  /**
   The pieces of `s` between newlines (JavaScript `s.split("\n")`): there is
   always at least one piece and no piece holds a newline.
   */
  function Split(s: string): (r: seq<string>)
    ensures |r| >= 1
    ensures forall i :: 0 <= i < |r| ==> Newline !in r[i]
  {
    if |s| == 0 then [""]
    else
      var t := Split(s[1..]);
      if s[0] == Newline then [""] + t
      else [[s[0]] + t[0]] + t[1..]
  }

  /** Joining the pieces back with newlines gives the string that was split. */
  lemma {:induction false} JoinSplit(s: string)
    ensures Join(Split(s)) == s
  {
    if |s| > 0 {
      var t := Split(s[1..]);
      JoinSplit(s[1..]);
      if s[0] == Newline {
        assert ([""] + t)[1..] == t;
      } else {
        var r := [[s[0]] + t[0]] + t[1..];
        if |t| > 1 {
          assert r[1..] == t[1..];
        }
      }
    }
  }

  /** A string with no newline is a single piece. */
  lemma {:induction false} SplitSingle(p: string)
    requires Newline !in p
    ensures Split(p) == [p]
  {
    if |p| > 0 {
      assert p[0] in p && [p[0]] + p[1..] == p;
      SplitSingle(p[1..]);
    }
  }

  /** A newline-free first piece followed by a newline splits off as the first piece. */
  lemma {:induction false} SplitAfterPiece(p: string, t: string)
    requires Newline !in p
    ensures Split(p + [Newline] + t) == [p] + Split(t)
  {
    assert p + [Newline] + t == p + ([Newline] + t);
    SplitPrefix(p, [Newline] + t);
    assert ([Newline] + t)[1..] == t;
    assert p + "" == p;
  }

  /** Splitting undoes joining, for pieces that hold no newline. */
  lemma {:induction false} SplitJoin(ps: seq<string>)
    requires |ps| >= 1
    requires forall i :: 0 <= i < |ps| ==> Newline !in ps[i]
    ensures Split(Join(ps)) == ps
  {
    if |ps| == 1 {
      SplitSingle(ps[0]);
    } else {
      SplitJoin(ps[1..]);
      SplitAfterPiece(ps[0], Join(ps[1..]));
    }
  }

  /** Splitting `p + t` for a newline-free `p` only grows the first piece of `t`. */
  lemma {:induction false} SplitPrefix(p: string, t: string)
    requires Newline !in p
    ensures Split(p + t) == [p + Split(t)[0]] + Split(t)[1..]
  {
    if |p| > 0 {
      assert (p + t)[1..] == p[1..] + t;
      assert (p + t)[0] == p[0];
      SplitPrefix(p[1..], t);
      assert [p[0]] + (p[1..] + Split(t)[0]) == p + Split(t)[0];
    } else {
      assert p + t == t;
      assert p + Split(t)[0] == Split(t)[0];
      assert [Split(t)[0]] + Split(t)[1..] == Split(t);
    }
  }
}
