/** Cutting filter text at separators, and which pieces a loop of cuts visits. */
module Split {
  import opened Text

  /** The library's find: the first place at or after `from` that holds the letter, or -1. */
  function Find(text: WString, c: WChar, from: nat): (pos: int)
    requires from <= |text|
    ensures pos == -1 ==> c !in text[from..]
    ensures pos != -1 ==> from <= pos < |text| && text[pos] == c && c !in text[from..pos]
    decreases |text| - from
  {
    if from == |text| then -1 else if text[from] == c then from else Find(text, c, from + 1)
  }

  /** The library's find_last_of: the last place before `to` that holds the letter, or -1. */
  function FindLast(text: WString, c: WChar, to: nat): (pos: int)
    requires to <= |text|
    ensures pos == -1 ==> c !in text[..to]
    ensures pos != -1 ==> 0 <= pos < to && text[pos] == c && c !in text[pos + 1..to]
  {
    if to == 0 then -1 else if text[to - 1] == c then to - 1 else FindLast(text, c, to - 1)
  }

  /** Cuts at the first (or last) separator; without one, everything goes left and nothing remains. */
  function StringSplit(text: WString, sep: WChar, last: bool): (r: (WString, WString))
    ensures sep !in text ==> r == (text, [])
    ensures sep in text ==> text == r.0 + [sep] + r.1 && sep !in (if last then r.1 else r.0)
  {
    var pos := if last then FindLast(text, sep, |text|) else Find(text, sep, 0);
    assert text[..|text|] == text;
    if pos == -1 then (text, []) else (text[..pos], text[pos + 1..])
  }

  /** The pieces seen by a loop that cuts until no text remains. */
  function Pieces(text: WString, sep: WChar): seq<WString>
    decreases |text|
  {
    if text == [] then [] else
      var r := StringSplit(text, sep, false);
      [r.0] + Pieces(r.1, sep)
  }

  /** Every piece followed by its separator. */
  function Terminated(pieces: seq<WString>, sep: WChar): WString {
    if pieces == [] then [] else pieces[0] + [sep] + Terminated(pieces[1..], sep)
  }

  predicate SeparatorFree(pieces: seq<WString>, sep: WChar) {
    forall p :: p in pieces ==> sep !in p
  }

  /** The text, with its last piece terminated if it was not. */
  function Closed(text: WString, sep: WChar): WString {
    if text == [] || text[|text| - 1] == sep then text else text + [sep]
  }

  /**
   The loop visits exactly the separator-free pieces of the text; an empty piece after a final separator is not one.
   */
  lemma {:induction false} PiecesRebuild(text: WString, sep: WChar)
    ensures SeparatorFree(Pieces(text, sep), sep)
    ensures Terminated(Pieces(text, sep), sep) == Closed(text, sep)
    decreases |text|
  {
    hide StringSplit;
    if text != [] {
      var r := StringSplit(text, sep, false);
      PiecesRebuild(r.1, sep);
      assert Pieces(text, sep) == [r.0] + Pieces(r.1, sep);
      TerminatedFirst(r.0, Pieces(r.1, sep), sep);
      if sep in text {
        ClosedSplit(r.0, sep, r.1);
      }
    }
  }

  lemma TerminatedFirst(p: WString, rest: seq<WString>, sep: WChar)
    ensures Terminated([p] + rest, sep) == p + [sep] + Terminated(rest, sep)
  {
    assert ([p] + rest)[1..] == rest;
  }

  lemma ClosedSplit(a: WString, sep: WChar, b: WString)
    ensures Closed(a + [sep] + b, sep) == a + [sep] + Closed(b, sep)
  {
    var whole := a + [sep] + b;
    if b == [] {
      assert whole[|whole| - 1] == sep;
    } else {
      assert whole[|whole| - 1] == b[|b| - 1];
    }
  }

  /** No other list of separator-free pieces closes to the same text, so the two facts above determine the pieces. */
  lemma {:induction false} PiecesUnique(ps: seq<WString>, qs: seq<WString>, sep: WChar)
    requires SeparatorFree(ps, sep) && SeparatorFree(qs, sep)
    requires Terminated(ps, sep) == Terminated(qs, sep)
    ensures ps == qs
  {
    if ps == [] || qs == [] {
    } else {
      var a, b := ps[0], qs[0];
      var s, u := Terminated(ps[1..], sep), Terminated(qs[1..], sep);
      assert a + [sep] + s == b + [sep] + u;
      FirstSeparator(a, s, sep, b, u);
      assert ps == [a] + ps[1..] && qs == [b] + qs[1..];
      assert forall p :: p in ps[1..] ==> p in ps;
      assert forall q :: q in qs[1..] ==> q in qs;
      PiecesUnique(ps[1..], qs[1..], sep);
    }
  }

  /** These are the pieces of this text: none contains the separator, and terminated they give the closed text. */
  predicate Composes(pieces: seq<WString>, sep: WChar, text: WString) {
    SeparatorFree(pieces, sep) && Terminated(pieces, sep) == Closed(text, sep)
  }

  lemma ComposedOf(pieces: seq<WString>, sep: WChar, text: WString)
    ensures Composes(pieces, sep, text) <==> Pieces(text, sep) == pieces
  {
    PiecesRebuild(text, sep);
    if Composes(pieces, sep, text) {
      PiecesUnique(Pieces(text, sep), pieces, sep);
    }
  }

  lemma FirstSeparator(a: WString, s: WString, sep: WChar, b: WString, u: WString)
    requires sep !in a && sep !in b
    requires a + [sep] + s == b + [sep] + u
    ensures a == b && s == u
  {
    var whole := a + [sep] + s;
    assert whole[|a|] == sep && whole[|b|] == sep;
    assert forall k :: 0 <= k < |a| ==> whole[k] == a[k];
    assert forall k :: 0 <= k < |b| ==> whole[k] == b[k];
    assert |a| == |b|;
    assert a == whole[..|a|] && b == whole[..|b|];
    assert s == whole[|a| + 1..] && u == whole[|b| + 1..];
  }
}
