/**
 The colon-separated view of a chat frame.

 The client splits every received text on `:` (Foundation's
 `components(separatedBy:)`), keeps the first component as the sender's name
 and the last component as the message body. The split here separates at every
 colon scalar; Foundation's default, Unicode-aware search may not separate at a
 colon that a combining mark or other extending scalar joins to what follows. This module defines that split,
 its inverse, and independent characterisations of the first and last field.
 */
module Components {

  /** The one separator of the wire format. */
  const Colon: char := ':'

  predicate ColonFree(s: string) {
    Colon !in s
  }

  /** Position of the first colon of `s`, or `|s|` when there is none. */
  function IndexOfColon(s: string): (i: nat)
    ensures i <= |s|
    ensures i < |s| ==> s[i] == Colon
    ensures i == |s| <==> ColonFree(s)
    ensures ColonFree(s[..i])
  {
    if |s| == 0 then 0
    else if s[0] == Colon then 0
    else
      var j := IndexOfColon(s[1..]);
      assert s[1..][..j] == s[1..j + 1];
      assert s[..j + 1] == [s[0]] + s[1..j + 1];
      1 + j
  }

  /** The parts separated by single colons; the inverse of `Split`. */
  function Join(parts: seq<string>): string
  {
    if |parts| == 0 then ""
    else if |parts| == 1 then parts[0]
    else parts[0] + [Colon] + Join(parts[1..])
  }

  /**
   The components of `s` separated by `:`. As with Foundation, there is one
   component more than there are colons, so even the empty text has one
   (empty) component, and adjacent colons yield empty components.
   */
  function Split(s: string): (parts: seq<string>)
    ensures |parts| >= 1
    ensures forall i :: 0 <= i < |parts| ==> ColonFree(parts[i])
    ensures Join(parts) == s
    decreases |s|
  {
    var i := IndexOfColon(s);
    if i == |s| then [s]
    else
      var rest := Split(s[i + 1..]);
      var parts := [s[..i]] + rest;
      assert parts[1..] == rest;
      assert s == s[..i] + [Colon] + s[i + 1..];
      parts
  }

  /** There is one component more than there are colons in the text. */
  lemma {:induction false} ComponentCount(s: string)
    ensures |Split(s)| == multiset(s)[Colon] + 1
    decreases |s|
  {
    var i := IndexOfColon(s);
    if i < |s| {
      var front, back := s[..i], s[i + 1..];
      ComponentCount(back);
      assert |Split(s)| == 1 + |Split(back)|;
      assert s == front + [Colon] + back;
      assert multiset(s) == multiset(front) + multiset{Colon} + multiset(back);
      assert multiset(front)[Colon] == 0;
    } else {
      assert multiset(s)[Colon] == 0;
    }
  }

  /** `f` is the text before the first colon of `s` (all of `s` if it has none). */
  predicate IsFirstField(s: string, f: string) {
    && f <= s
    && ColonFree(f)
    && (|f| == |s| || s[|f|] == Colon)
  }

  /** `f` is the text after the last colon of `s` (all of `s` if it has none). */
  predicate IsLastField(s: string, f: string) {
    && |f| <= |s|
    && s[|s| - |f|..] == f
    && ColonFree(f)
    && (|f| == |s| || s[|s| - |f| - 1] == Colon)
  }

  /** `.first` of the components: the text before the first colon. */
  function First(s: string): (f: string)
    ensures IsFirstField(s, f)
  {
    Split(s)[0]
  }

  /** `.last` of the components: the text after the last colon. */
  function Last(s: string): (f: string)
    ensures IsLastField(s, f)
  {
    var parts := Split(s);
    if |parts| > 1 then
      JoinSnoc(parts);
      var last := parts[|parts| - 1];
      assert s == Join(parts[..|parts| - 1]) + [Colon] + last;
      assert s[|s| - |last|..] == last;
      last
    else
      parts[0]
  }

  /** Joining colon-free parts and splitting again gives the same parts back. */
  lemma {:induction false} SplitJoin(parts: seq<string>)
    requires |parts| >= 1
    requires forall i :: 0 <= i < |parts| ==> ColonFree(parts[i])
    ensures Split(Join(parts)) == parts
    decreases |parts|
  {
    if |parts| > 1 {
      var s := Join(parts);
      var p := parts[0];
      assert s == p + [Colon] + Join(parts[1..]);
      assert s[..|p|] == p;
      var i := IndexOfColon(s);
      FirstFieldUnique(s, p, s[..i]);
      assert s[i + 1..] == Join(parts[1..]);
      SplitJoin(parts[1..]);
      assert Split(s) == [p] + parts[1..];
    }
  }

  /** Two first fields of the same text are the same string. */
  lemma FirstFieldUnique(s: string, f: string, g: string)
    requires IsFirstField(s, f) && IsFirstField(s, g)
    ensures f == g
  {
  }

  /** Two last fields of the same text are the same string. */
  lemma LastFieldUnique(s: string, f: string, g: string)
    requires IsLastField(s, f) && IsLastField(s, g)
    ensures f == g
  {
  }

  /** Joining all but the last part, then a colon, then the last part. */
  lemma {:induction false} JoinSnoc(parts: seq<string>)
    requires |parts| >= 2
    ensures Join(parts) == Join(parts[..|parts| - 1]) + [Colon] + parts[|parts| - 1]
    decreases |parts|
  {
    if |parts| > 2 {
      JoinSnoc(parts[1..]);
      assert parts[1..][..|parts| - 2] == parts[..|parts| - 1][1..];
    }
  }

  /** The split of a text with no colon is the text alone. */
  lemma SplitColonFree(s: string)
    requires ColonFree(s)
    ensures Split(s) == [s]
  {
  }

  /**
   Only the first and last components survive: whatever lies between the first
   and the last colon is discarded, colons included.
   */
  lemma MiddleIsDiscarded(a: string, b: string, c: string)
    requires ColonFree(a) && ColonFree(c)
    ensures First(a + [Colon] + b + [Colon] + c) == a
    ensures Last(a + [Colon] + b + [Colon] + c) == c
  {
    var s := a + [Colon] + b + [Colon] + c;
    assert s[..|a|] == a;
    FirstFieldUnique(s, a, First(s));
    assert s[|s| - |c|..] == c;
    LastFieldUnique(s, c, Last(s));
  }
}
