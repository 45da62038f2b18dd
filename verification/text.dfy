/**
 String helpers used by the feed transformer: Python's substring test
 (`sub in s`) and single-character `str.replace`, together with the one-pass
 line-break flattening the description column is meant to receive.
 */
module Text {

  const CarriageReturn: char := '\r'
  const LineFeed: char := '\n'

  /** The markup every carriage return and line feed of a description becomes. */
  const LineBreakMarkup: string := "<br />"

  /** `sub` occurs in `s` starting at position `i`. */
  ghost predicate OccursAt(s: string, sub: string, i: int)
  {
    0 <= i && i + |sub| <= |s| && s[i..i + |sub|] == sub
  }

  lemma OccursAtTail(s: string, sub: string, i: int)
    requires |s| > 0 && 0 <= i
    ensures OccursAt(s[1..], sub, i) <==> OccursAt(s, sub, i + 1)
  {
    if i + |sub| <= |s| - 1 {
      assert s[1..][i..i + |sub|] == s[i + 1..i + 1 + |sub|];
    }
  }

  /** Python's `sub in s` for strings: a substring search. */
  function Contains(s: string, sub: string): (r: bool)
    ensures r <==> exists i :: OccursAt(s, sub, i)
    decreases |s|
  {
    if |sub| > |s| then
      assert forall i :: !OccursAt(s, sub, i);
      false
    else if s[..|sub|] == sub then
      assert OccursAt(s, sub, 0);
      true
    else
      var r := Contains(s[1..], sub);
      assert !OccursAt(s, sub, 0);
      assert forall i :: OccursAt(s, sub, i) ==> i > 0;
      assert r <==> exists i :: OccursAt(s, sub, i) by {
        forall i | OccursAt(s, sub, i) {
          OccursAtTail(s, sub, i - 1);
        }
        if r {
          var j :| OccursAt(s[1..], sub, j);
          OccursAtTail(s, sub, j);
        }
      }
      r
  }

  /**
   Python's `s.replace(c, rep)` for a one-character pattern `c`. The empty
   and one-character cases below, together with `ReplaceCharAppend`, fix the
   result on every string.
   */
  function ReplaceChar(s: string, c: char, rep: string): (r: string)
    ensures s == [] ==> r == []
    ensures |s| == 1 ==> r == (if s[0] == c then rep else s)
    ensures c !in s ==> r == s
    ensures c !in rep ==> c !in r
    ensures forall d :: d in r ==> d in rep || (d in s && d != c)
  {
    if s == [] then []
    else (if s[0] == c then rep else [s[0]]) + ReplaceChar(s[1..], c, rep)
  }

  lemma {:induction false} ReplaceCharAppend(a: string, b: string, c: char, rep: string)
    ensures ReplaceChar(a + b, c, rep) == ReplaceChar(a, c, rep) + ReplaceChar(b, c, rep)
  {
    if a == [] {
      assert a + b == b;
    } else {
      assert (a + b)[0] == a[0];
      assert (a + b)[1..] == a[1..] + b;
      ReplaceCharAppend(a[1..], b, c, rep);
    }
  }

  predicate IsLineBreak(c: char)
  {
    c == CarriageReturn || c == LineFeed
  }

  /**
   Reference definition of the description normalisation: every carriage
   return and every line feed, independently, becomes `<br />`; every other
   character is kept, in order.
   */
  function BreakLines(s: string): (r: string)
    ensures forall d :: d in r ==> !IsLineBreak(d)
    ensures (forall d :: d in s ==> !IsLineBreak(d)) ==> r == s
  {
    if s == [] then []
    else (if IsLineBreak(s[0]) then LineBreakMarkup else [s[0]]) + BreakLines(s[1..])
  }

  lemma {:induction false} BreakLinesAppend(a: string, b: string)
    ensures BreakLines(a + b) == BreakLines(a) + BreakLines(b)
  {
    if a == [] {
      assert a + b == b;
    } else {
      assert (a + b)[0] == a[0];
      assert (a + b)[1..] == a[1..] + b;
      BreakLinesAppend(a[1..], b);
    }
  }

  /**
   The description as the handler computes it: all carriage returns are
   replaced first, then all line feeds.
   */
  function FlattenLineBreaks(s: string): (r: string)
    ensures CarriageReturn !in r && LineFeed !in r
  {
    ReplaceChar(ReplaceChar(s, CarriageReturn, LineBreakMarkup), LineFeed, LineBreakMarkup)
  }

  /** The two replace passes agree with the one-pass reference on every string. */
  lemma {:induction false} FlattenIsBreakLines(s: string)
    ensures FlattenLineBreaks(s) == BreakLines(s)
  {
    if s != [] {
      var head, tail := s[..1], s[1..];
      assert s == head + tail;
      ReplaceCharAppend(head, tail, CarriageReturn, LineBreakMarkup);
      var once := ReplaceChar(head, CarriageReturn, LineBreakMarkup);
      ReplaceCharAppend(once, ReplaceChar(tail, CarriageReturn, LineBreakMarkup), LineFeed, LineBreakMarkup);
      BreakLinesAppend(head, tail);
      FlattenIsBreakLines(tail);
      assert ReplaceChar(head[1..], CarriageReturn, LineBreakMarkup) == [];
      assert BreakLines(head[1..]) == [];
      if s[0] == CarriageReturn {
        assert once == LineBreakMarkup;
      } else {
        assert once == head;
      }
    }
  }
}
