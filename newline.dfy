/**
 * The vendored newline converter: `dos2unix` turns CRLF line breaks into LF,
 * `unix2dos` turns bare LF line breaks into CRLF. Both scan the input once and
 * hand back the input itself (`Borrowed`) when nothing had to change, or a new
 * string (`Owned`) otherwise.
 *
 * Strings are sequences of Unicode scalar values. The source copies the text
 * before the first edit with `str::split_at`, which takes a byte offset; the
 * methods below take it as a character offset, which is what the code means.
 * The functions `Dos2UnixAsWritten` and `Unix2DosAsWritten` at the end model
 * the byte offset as written and show where the two part.
 */
module Newline {
  import opened Wrappers

  /** Rust's `Cow<str>`: either the borrowed input or a freshly built string. */
  datatype Cow = Borrowed(text: string) | Owned(text: string)

  /** Number of occurrences of `c` in `s`. */
  function Count(s: string, c: char): nat
  {
    if s == [] then 0 else (if s[0] == c then 1 else 0) + Count(s[1..], c)
  }

  /** Number of CRLF pairs in `s` (they cannot overlap). */
  function CountCrlf(s: string): nat
  {
    if |s| < 2 then 0
    else (if s[0] == '\r' && s[1] == '\n' then 1 else 0) + CountCrlf(s[1..])
  }

  // ---------------------------------------------------------------- dos2unix

  /** The character at index `i` is the carriage return of a CRLF pair: dos2unix drops it. */
  predicate DropsAt(s: string, i: nat)
    requires i < |s|
  {
    s[i] == '\r' && i + 1 < |s| && s[i + 1] == '\n'
  }

  predicate HasCrlf(s: string)
  {
    exists i :: 0 <= i < |s| && DropsAt(s, i)
  }

  /** What the scan emits for `s[i..]`: every character whose index does not drop, in order. */
  function KeptFrom(s: string, i: nat): string
    requires i <= |s|
    decreases |s| - i
  {
    if i == |s| then []
    else (if DropsAt(s, i) then [] else [s[i]]) + KeptFrom(s, i + 1)
  }

  /** Reference meaning of dos2unix: every "\r\n" replaced by "\n", left to right. */
  function ReplaceCrlf(s: string): string
  {
    if |s| >= 2 && s[0] == '\r' && s[1] == '\n' then "\n" + ReplaceCrlf(s[2..])
    else if s == [] then []
    else [s[0]] + ReplaceCrlf(s[1..])
  }

  /** Dropping the carriage return of each CRLF pair is replacing each pair by a line feed. */
  lemma {:induction false} KeptFromIsReplaceCrlf(s: string, i: nat)
    requires i <= |s|
    ensures KeptFrom(s, i) == ReplaceCrlf(s[i..])
    decreases |s| - i
  {
    if i == |s| {
      assert s[i..] == [];
    } else if DropsAt(s, i) {
      assert !DropsAt(s, i + 1);
      KeptFromIsReplaceCrlf(s, i + 2);
      assert s[i..][2..] == s[i + 2..];
    } else {
      KeptFromIsReplaceCrlf(s, i + 1);
      assert s[i..][1..] == s[i + 1..];
    }
  }

  /** One step of the dos2unix scan: position `i` emits its piece, then the scan goes on at `i + 1`. */
  lemma KeptStep(s: string, i: nat, emitted: string)
    requires i < |s|
    ensures emitted + KeptFrom(s, i) == (emitted + (if DropsAt(s, i) then [] else [s[i]])) + KeptFrom(s, i + 1)
  {
    var piece := if DropsAt(s, i) then [] else [s[i]];
    assert KeptFrom(s, i) == piece + KeptFrom(s, i + 1);
    assert emitted + (piece + KeptFrom(s, i + 1)) == (emitted + piece) + KeptFrom(s, i + 1);
  }

  /**
   * dos2unix: removes exactly the carriage returns that a line feed follows and
   * keeps every other character, lone carriage returns included, in order.
   * The result is borrowed exactly when the input holds no CRLF pair.
   */
  method Dos2Unix(input: string) returns (r: Cow)
    ensures r.text == ReplaceCrlf(input)
    ensures r.Borrowed? <==> !HasCrlf(input)
    ensures r.Borrowed? ==> r.text == input
  {
    var output: Option<string> := None;
    var i := 0;
    ghost var emitted: string := [];
    while i < |input|
      invariant 0 <= i <= |input|
      invariant output.None? <==> forall j :: 0 <= j < i ==> !DropsAt(input, j)
      invariant emitted == if output.None? then input[..i] else output.value
      invariant emitted + KeptFrom(input, i) == KeptFrom(input, 0)
    {
      var current := input[i];
      ghost var piece := if DropsAt(input, i) then [] else [current];
      KeptStep(input, i, emitted);
      if current == '\r' && i + 1 < |input| && input[i + 1] == '\n' {
        // the carriage return of a pair is dropped; the first one starts the copy
        if output.None? {
          output := Some(input[..i]);
        }
      } else if output.Some? {
        output := Some(output.value + [current]);
      } else {
        assert input[..i + 1] == input[..i] + [current];
      }
      emitted := emitted + piece;
      i := i + 1;
    }
    assert input[..i] == input;
    KeptFromIsReplaceCrlf(input, 0);
    assert input[0..] == input;
    if output.None? {
      r := Borrowed(input);
    } else {
      r := Owned(output.value);
    }
  }

  lemma {:induction false} CountCrlfAfterNonCr(c: char, t: string)
    requires c != '\r'
    ensures CountCrlf([c] + t) == CountCrlf(t)
  {
    if t != [] {
      assert ([c] + t)[1..] == t;
    }
  }

  /** dos2unix removes one character per CRLF pair. */
  lemma {:induction false} ReplaceCrlfLength(s: string)
    ensures |ReplaceCrlf(s)| == |s| - CountCrlf(s)
  {
    if |s| >= 2 && s[0] == '\r' && s[1] == '\n' {
      ReplaceCrlfLength(s[2..]);
      assert s[1..] == [s[1]] + s[2..];
      CountCrlfAfterNonCr(s[1], s[2..]);
    } else if s != [] {
      ReplaceCrlfLength(s[1..]);
    }
  }

  /** dos2unix keeps every line feed, so the number of lines is unchanged. */
  lemma {:induction false} ReplaceCrlfKeepsLineFeeds(s: string)
    ensures Count(ReplaceCrlf(s), '\n') == Count(s, '\n')
  {
    if |s| >= 2 && s[0] == '\r' && s[1] == '\n' {
      ReplaceCrlfKeepsLineFeeds(s[2..]);
      assert ("\n" + ReplaceCrlf(s[2..]))[1..] == ReplaceCrlf(s[2..]);
      assert s[1..][1..] == s[2..];
    } else if s != [] {
      ReplaceCrlfKeepsLineFeeds(s[1..]);
      assert ([s[0]] + ReplaceCrlf(s[1..]))[1..] == ReplaceCrlf(s[1..]);
    }
  }

  lemma {:induction false} CountCrlfSeesPair(s: string, i: nat)
    requires i < |s| && DropsAt(s, i)
    ensures CountCrlf(s) > 0
  {
    if i > 0 {
      assert DropsAt(s[1..], i - 1);
      CountCrlfSeesPair(s[1..], i - 1);
    }
  }

  lemma {:induction false} ReplaceCrlfWithoutPair(s: string)
    requires !HasCrlf(s)
    ensures ReplaceCrlf(s) == s
  {
    if s != [] {
      assert !DropsAt(s, 0);
      forall j | 0 <= j < |s[1..]| ensures !DropsAt(s[1..], j) {
        assert !DropsAt(s, j + 1);
      }
      ReplaceCrlfWithoutPair(s[1..]);
    }
  }

  /** dos2unix changes the text exactly when the text holds a CRLF pair. */
  lemma ReplaceCrlfChangesIffPair(s: string)
    ensures ReplaceCrlf(s) == s <==> !HasCrlf(s)
  {
    if HasCrlf(s) {
      var i :| 0 <= i < |s| && DropsAt(s, i);
      CountCrlfSeesPair(s, i);
      ReplaceCrlfLength(s);
    } else {
      ReplaceCrlfWithoutPair(s);
    }
  }

  /** dos2unix is not idempotent: a carriage return before a CRLF pair survives the first pass only. */
  lemma ReplaceCrlfNotIdempotent()
    ensures ReplaceCrlf("\r\r\n") == "\r\n"
    ensures ReplaceCrlf(ReplaceCrlf("\r\r\n")) == "\n"
  {
    assert "\r\r\n"[1..] == "\r\n";
    assert "\r\n"[2..] == [];
  }

  // ---------------------------------------------------------------- unix2dos

  /** The character at index `i` is a line feed with no carriage return before it: unix2dos inserts one. */
  predicate InsertsAt(s: string, i: nat)
    requires i < |s|
  {
    s[i] == '\n' && (i == 0 || s[i - 1] != '\r')
  }

  /** Every line feed of `s` is the second half of a CRLF pair. */
  predicate EveryLfAfterCr(s: string)
  {
    forall i :: 0 <= i < |s| && s[i] == '\n' ==> 0 < i && s[i - 1] == '\r'
  }

  lemma NoInsertionIffEveryLfAfterCr(s: string)
    ensures (forall j :: 0 <= j < |s| ==> !InsertsAt(s, j)) <==> EveryLfAfterCr(s)
  {
    if forall j :: 0 <= j < |s| ==> !InsertsAt(s, j) {
      forall i | 0 <= i < |s| && s[i] == '\n' ensures 0 < i && s[i - 1] == '\r' {
        assert !InsertsAt(s, i);
      }
    }
  }

  /** What the scan emits for `s[i..]`: each character, preceded by a carriage return where one is inserted. */
  function AddedFrom(s: string, i: nat): string
    requires i <= |s|
    decreases |s| - i
  {
    if i == |s| then []
    else (if InsertsAt(s, i) then ['\r', s[i]] else [s[i]]) + AddedFrom(s, i + 1)
  }

  /** Reference meaning of unix2dos: left to right, keep each "\r\n" and turn every other "\n" into "\r\n". */
  function ReplaceBareLf(s: string): string
  {
    if |s| >= 2 && s[0] == '\r' && s[1] == '\n' then "\r\n" + ReplaceBareLf(s[2..])
    else if s == [] then []
    else if s[0] == '\n' then "\r\n" + ReplaceBareLf(s[1..])
    else [s[0]] + ReplaceBareLf(s[1..])
  }

  /** Looking back at the previous character is the same as pairing from the left. */
  lemma {:induction false} AddedFromIsReplaceBareLf(s: string, i: nat)
    requires i <= |s|
    requires i == 0 || i == |s| || !(s[i - 1] == '\r' && s[i] == '\n')
    ensures AddedFrom(s, i) == ReplaceBareLf(s[i..])
    decreases |s| - i
  {
    if i == |s| {
      assert s[i..] == [];
    } else if s[i] == '\r' && i + 1 < |s| && s[i + 1] == '\n' {
      assert !InsertsAt(s, i) && !InsertsAt(s, i + 1);
      AddedFromIsReplaceBareLf(s, i + 2);
      assert s[i..][2..] == s[i + 2..];
    } else {
      AddedFromIsReplaceBareLf(s, i + 1);
      assert s[i..][1..] == s[i + 1..];
    }
  }

  /** One step of the unix2dos scan. */
  lemma AddedStep(s: string, i: nat, emitted: string)
    requires i < |s|
    ensures emitted + AddedFrom(s, i) == (emitted + (if InsertsAt(s, i) then ['\r', s[i]] else [s[i]])) + AddedFrom(s, i + 1)
  {
    var piece := if InsertsAt(s, i) then ['\r', s[i]] else [s[i]];
    assert AddedFrom(s, i) == piece + AddedFrom(s, i + 1);
    assert emitted + (piece + AddedFrom(s, i + 1)) == (emitted + piece) + AddedFrom(s, i + 1);
  }

  /**
   * unix2dos: inserts a carriage return before each line feed that is first or
   * follows anything but a carriage return; existing CRLF pairs and lone
   * carriage returns are untouched. The result is borrowed exactly when every
   * line feed already follows a carriage return.
   */
  method Unix2Dos(input: string) returns (r: Cow)
    ensures r.text == ReplaceBareLf(input)
    ensures r.Borrowed? <==> EveryLfAfterCr(input)
    ensures r.Borrowed? ==> r.text == input
  {
    var output: Option<string> := None;
    var lastChar: Option<char> := None;
    var i := 0;
    ghost var emitted: string := [];
    while i < |input|
      invariant 0 <= i <= |input|
      invariant lastChar == if i == 0 then None else Some(input[i - 1])
      invariant output.None? <==> forall j :: 0 <= j < i ==> !InsertsAt(input, j)
      invariant emitted == if output.None? then input[..i] else output.value
      invariant emitted + AddedFrom(input, i) == AddedFrom(input, 0)
    {
      var current := input[i];
      ghost var piece := if InsertsAt(input, i) then ['\r', current] else [current];
      AddedStep(input, i, emitted);
      var insert := current == '\n' && (i == 0 || (lastChar.Some? && lastChar.value != '\r'));
      assert insert == InsertsAt(input, i);
      if insert {
        if output.None? {
          output := Some(input[..i]);
        }
        assert output.value == emitted;
        output := Some(output.value + ['\r']);
      }
      lastChar := Some(current);
      if output.Some? {
        output := Some(output.value + [current]);
        assert output.value == emitted + piece;
      } else {
        assert input[..i + 1] == emitted + piece;
      }
      emitted := emitted + piece;
      i := i + 1;
    }
    assert AddedFrom(input, i) == [];
    AddedFromIsReplaceBareLf(input, 0);
    assert input[0..] == input;
    assert emitted == ReplaceBareLf(input);
    NoInsertionIffEveryLfAfterCr(input);
    if output.None? {
      assert input[..i] == input;
      r := Borrowed(input);
    } else {
      r := Owned(output.value);
    }
  }

  lemma ReplaceBareLfStart(s: string)
    ensures ReplaceBareLf(s) == [] || ReplaceBareLf(s)[0] != '\n'
  {
  }

  lemma EveryLfAfterCrConcat(a: string, b: string)
    requires EveryLfAfterCr(a) && EveryLfAfterCr(b)
    requires b == [] || b[0] != '\n'
    ensures EveryLfAfterCr(a + b)
  {
    forall i | 0 <= i < |a + b| && (a + b)[i] == '\n' ensures 0 < i && (a + b)[i - 1] == '\r' {
      if i >= |a| {
        assert b[i - |a|] == '\n';
      }
    }
  }

  /** After unix2dos every line feed follows a carriage return. */
  lemma {:induction false} ReplaceBareLfLeavesNoBareLf(s: string)
    ensures EveryLfAfterCr(ReplaceBareLf(s))
  {
    if |s| >= 2 && s[0] == '\r' && s[1] == '\n' {
      ReplaceBareLfLeavesNoBareLf(s[2..]);
      ReplaceBareLfStart(s[2..]);
      EveryLfAfterCrConcat("\r\n", ReplaceBareLf(s[2..]));
    } else if s != [] && s[0] == '\n' {
      ReplaceBareLfLeavesNoBareLf(s[1..]);
      ReplaceBareLfStart(s[1..]);
      EveryLfAfterCrConcat("\r\n", ReplaceBareLf(s[1..]));
    } else if s != [] {
      ReplaceBareLfLeavesNoBareLf(s[1..]);
      ReplaceBareLfStart(s[1..]);
      EveryLfAfterCrConcat([s[0]], ReplaceBareLf(s[1..]));
    }
  }

  /** unix2dos leaves text alone whose line feeds all follow carriage returns. */
  lemma {:induction false} ReplaceBareLfFixesDosText(s: string)
    requires EveryLfAfterCr(s)
    ensures ReplaceBareLf(s) == s
  {
    if |s| >= 2 && s[0] == '\r' && s[1] == '\n' {
      var t := s[2..];
      forall k | 0 <= k < |t| && t[k] == '\n' ensures 0 < k && t[k - 1] == '\r' {
        assert s[k + 2] == '\n';
      }
      ReplaceBareLfFixesDosText(t);
      assert s == "\r\n" + t;
    } else if s != [] {
      assert s[0] != '\n';
      var t := s[1..];
      forall k | 0 <= k < |t| && t[k] == '\n' ensures 0 < k && t[k - 1] == '\r' {
        assert s[k + 1] == '\n';
      }
      ReplaceBareLfFixesDosText(t);
      assert s == [s[0]] + t;
    }
  }

  /** unix2dos is idempotent: a second pass over its output changes nothing. */
  lemma ReplaceBareLfIdempotent(s: string)
    ensures ReplaceBareLf(ReplaceBareLf(s)) == ReplaceBareLf(s)
  {
    ReplaceBareLfLeavesNoBareLf(s);
    ReplaceBareLfFixesDosText(ReplaceBareLf(s));
  }

  /** unix2dos adds one character per line feed that is not already part of a CRLF pair. */
  lemma {:induction false} ReplaceBareLfLength(s: string)
    ensures |ReplaceBareLf(s)| + CountCrlf(s) == |s| + Count(s, '\n')
  {
    if |s| >= 2 && s[0] == '\r' && s[1] == '\n' {
      ReplaceBareLfLength(s[2..]);
      assert s[1..] == [s[1]] + s[2..];
      CountCrlfAfterNonCr(s[1], s[2..]);
    } else if s != [] {
      ReplaceBareLfLength(s[1..]);
      if s[0] == '\n' {
        CountCrlfAfterNonCr(s[0], s[1..]);
        assert s == [s[0]] + s[1..];
      }
    }
  }

  // --------------------------------------------------------------- together

  /** dos2unix undoes unix2dos: converting to CRLF and back is the same as converting back alone. */
  lemma {:induction false} ReplaceCrlfAfterReplaceBareLf(s: string)
    ensures ReplaceCrlf(ReplaceBareLf(s)) == ReplaceCrlf(s)
  {
    if |s| >= 2 && s[0] == '\r' && s[1] == '\n' {
      ReplaceCrlfAfterReplaceBareLf(s[2..]);
      assert ("\r\n" + ReplaceBareLf(s[2..]))[2..] == ReplaceBareLf(s[2..]);
    } else if s != [] && s[0] == '\n' {
      ReplaceCrlfAfterReplaceBareLf(s[1..]);
      assert ("\r\n" + ReplaceBareLf(s[1..]))[2..] == ReplaceBareLf(s[1..]);
    } else if s != [] {
      ReplaceCrlfAfterReplaceBareLf(s[1..]);
      ReplaceBareLfStart(s[1..]);
      var u := [s[0]] + ReplaceBareLf(s[1..]);
      assert u[1..] == ReplaceBareLf(s[1..]);
      assert !(|u| >= 2 && u[0] == '\r' && u[1] == '\n');
    }
  }

  /** On text without CRLF pairs, dos2unix is the inverse of unix2dos. */
  lemma RoundTrip(s: string)
    requires !HasCrlf(s)
    ensures ReplaceCrlf(ReplaceBareLf(s)) == s
  {
    ReplaceCrlfAfterReplaceBareLf(s);
    ReplaceCrlfWithoutPair(s);
  }

  // ------------------------------------------------------ piece by piece

  /** dos2unix on a CRLF pair followed by `t`. */
  lemma CrlfPairHead(t: string)
    ensures ReplaceCrlf("\r\n" + t) == "\n" + ReplaceCrlf(t)
  {
    var s := "\r\n" + t;
    assert s[0] == '\r' && s[1] == '\n' && s[2..] == t;
  }

  /** dos2unix on a character that does not start a CRLF pair, followed by `t`. */
  lemma CrlfOtherHead(c: char, t: string)
    requires !(c == '\r' && t != [] && t[0] == '\n')
    ensures ReplaceCrlf([c] + t) == [c] + ReplaceCrlf(t)
  {
    var s := [c] + t;
    assert s[0] == c && s[1..] == t;
    assert !(|s| >= 2 && s[0] == '\r' && s[1] == '\n') by {
      if |s| >= 2 {
        assert s[1] == t[0];
      }
    }
  }

  /** unix2dos on a CRLF pair followed by `t`. */
  lemma BareLfPairHead(t: string)
    ensures ReplaceBareLf("\r\n" + t) == "\r\n" + ReplaceBareLf(t)
  {
    var s := "\r\n" + t;
    assert s[0] == '\r' && s[1] == '\n' && s[2..] == t;
  }

  /** unix2dos on a bare line feed followed by `t`. */
  lemma BareLfLineFeedHead(t: string)
    ensures ReplaceBareLf("\n" + t) == "\r\n" + ReplaceBareLf(t)
  {
    var s := "\n" + t;
    assert s[0] == '\n' && s[1..] == t;
  }

  /** unix2dos on a character that is no line feed and does not start a CRLF pair, followed by `t`. */
  lemma BareLfOtherHead(c: char, t: string)
    requires c != '\n' && !(c == '\r' && t != [] && t[0] == '\n')
    ensures ReplaceBareLf([c] + t) == [c] + ReplaceBareLf(t)
  {
    var s := [c] + t;
    assert s[0] == c && s[1..] == t;
    assert !(|s| >= 2 && s[0] == '\r' && s[1] == '\n') by {
      if |s| >= 2 {
        assert s[1] == t[0];
      }
    }
  }

  /**
   * A prefix without line feeds passes dos2unix unchanged, provided it does not
   * end in a carriage return that the rest would pair with a line feed.
   */
  lemma {:induction false} CrlfPlainPrefix(w: string, t: string)
    requires '\n' !in w
    requires w == [] || t == [] || w[|w| - 1] != '\r' || t[0] != '\n'
    ensures ReplaceCrlf(w + t) == w + ReplaceCrlf(t)
    decreases |w|
  {
    if w == [] {
      assert w + t == t;
    } else {
      var u := w[1..];
      assert w == [w[0]] + u;
      assert '\n' !in u by {
        assert forall k | 0 <= k < |u| :: u[k] == w[k + 1];
      }
      CrlfPlainPrefix(u, t);
      var y := u + t;
      assert w + t == [w[0]] + y;
      if u != [] {
        assert y[0] == u[0] == w[1];
      }
      CrlfOtherHead(w[0], y);
      assert [w[0]] + (u + ReplaceCrlf(t)) == w + ReplaceCrlf(t);
    }
  }

  /** The same for unix2dos. */
  lemma {:induction false} BareLfPlainPrefix(w: string, t: string)
    requires '\n' !in w
    requires w == [] || t == [] || w[|w| - 1] != '\r' || t[0] != '\n'
    ensures ReplaceBareLf(w + t) == w + ReplaceBareLf(t)
    decreases |w|
  {
    if w == [] {
      assert w + t == t;
    } else {
      var u := w[1..];
      assert w == [w[0]] + u;
      assert '\n' !in u by {
        assert forall k | 0 <= k < |u| :: u[k] == w[k + 1];
      }
      BareLfPlainPrefix(u, t);
      var y := u + t;
      assert w + t == [w[0]] + y;
      if u != [] {
        assert y[0] == u[0] == w[1];
      }
      BareLfOtherHead(w[0], y);
      assert [w[0]] + (u + ReplaceBareLf(t)) == w + ReplaceBareLf(t);
    }
  }

  /** Text without line feeds is left alone by both conversions. */
  lemma NoLineFeedUnchanged(w: string)
    requires '\n' !in w
    ensures ReplaceCrlf(w) == w && ReplaceBareLf(w) == w
  {
    CrlfPlainPrefix(w, []);
    BareLfPlainPrefix(w, []);
    assert w + [] == w;
  }

  lemma LineBreaks()
    ensures ReplaceCrlf("\r\n") == "\n" && ReplaceCrlf("\n") == "\n"
    ensures ReplaceBareLf("\r\n") == "\r\n" && ReplaceBareLf("\n") == "\r\n"
  {
    assert "\r\n"[2..] == [];
    assert "\n"[1..] == [];
  }

  /** A word: text with neither line break character. */
  predicate Word(w: string)
  {
    '\r' !in w && '\n' !in w
  }

  // The crate's unit tests (lib.rs, module tests), one lemma per test, each
  // stated for any words in place of "foo", "bar" and "foobar".

  lemma TestMiddleDos2Unix(u: string, v: string)
    requires Word(u) && Word(v)
    ensures ReplaceCrlf(u + ("\r\n" + v)) == u + ("\n" + v)
  {
    NoLineFeedUnchanged(v);
    CrlfPairHead(v);
    CrlfPlainPrefix(u, "\r\n" + v);
  }

  lemma TestMiddleUnix2Dos(u: string, v: string)
    requires Word(u) && Word(v)
    ensures ReplaceBareLf(u + ("\n" + v)) == u + ("\r\n" + v)
  {
    NoLineFeedUnchanged(v);
    BareLfLineFeedHead(v);
    BareLfPlainPrefix(u, "\n" + v);
  }

  lemma TestBeginningDos2Unix(w: string)
    requires Word(w)
    ensures ReplaceCrlf("\r\n" + w) == "\n" + w
  {
    NoLineFeedUnchanged(w);
    CrlfPairHead(w);
  }

  lemma TestBeginningUnix2Dos(w: string)
    requires Word(w)
    ensures ReplaceBareLf("\n" + w) == "\r\n" + w
  {
    NoLineFeedUnchanged(w);
    BareLfLineFeedHead(w);
  }

  lemma TestEndDos2Unix(w: string)
    requires Word(w)
    ensures ReplaceCrlf(w + "\r\n") == w + "\n"
  {
    CrlfPairHead([]);
    assert "\r\n" + [] == "\r\n";
    CrlfPlainPrefix(w, "\r\n");
  }

  lemma TestEndUnix2Dos(w: string)
    requires Word(w)
    ensures ReplaceBareLf(w + "\n") == w + "\r\n"
  {
    BareLfLineFeedHead([]);
    assert "\n" + [] == "\n";
    BareLfPlainPrefix(w, "\n");
  }

  lemma TestAllDos2Unix(u: string, v: string)
    requires Word(u) && Word(v)
    ensures ReplaceCrlf("\r\n" + (u + ("\r\n" + (v + "\r\n")))) == "\n" + (u + ("\n" + (v + "\n")))
  {
    TestEndDos2Unix(v);
    CrlfPairHead(v + "\r\n");
    CrlfPlainPrefix(u, "\r\n" + (v + "\r\n"));
    CrlfPairHead(u + ("\r\n" + (v + "\r\n")));
  }

  lemma TestAllUnix2Dos(u: string, v: string)
    requires Word(u) && Word(v)
    ensures ReplaceBareLf("\n" + (u + ("\n" + (v + "\n")))) == "\r\n" + (u + ("\r\n" + (v + "\r\n")))
  {
    TestEndUnix2Dos(v);
    BareLfLineFeedHead(v + "\n");
    BareLfPlainPrefix(u, "\n" + (v + "\n"));
    BareLfLineFeedHead(u + ("\n" + (v + "\n")));
  }

  /** A lone carriage return survives dos2unix, a lone line feed too. */
  lemma TestAdvancedDos2Unix(u: string, v: string)
    requires Word(u) && Word(v)
    ensures ReplaceCrlf("\n" + (u + ("\r" + (v + "\r\n")))) == "\n" + (u + ("\r" + (v + "\n")))
  {
    TestEndDos2Unix(v);
    CrlfOtherHead('\r', v + "\r\n");
    CrlfPlainPrefix(u, "\r" + (v + "\r\n"));
    CrlfOtherHead('\n', u + ("\r" + (v + "\r\n")));
  }

  /** An existing CRLF pair is kept by unix2dos, and so is a lone carriage return. */
  lemma TestAdvancedUnix2Dos(u: string, v: string)
    requires Word(u) && Word(v)
    ensures ReplaceBareLf("\r" + (u + ("\r\n" + (v + "\n")))) == "\r" + (u + ("\r\n" + (v + "\r\n")))
  {
    TestEndUnix2Dos(v);
    BareLfPairHead(v + "\n");
    BareLfPlainPrefix(u, "\r\n" + (v + "\n"));
    BareLfOtherHead('\r', u + ("\r\n" + (v + "\n")));
  }

  /** With the methods' contracts: dos2unix borrows "\nfoo\nbar\n" and unix2dos borrows its CRLF twin. */
  lemma TestNotMutated()
    ensures !HasCrlf("\nfoo\nbar\n")
    ensures EveryLfAfterCr("\r\nfoo\r\nbar\r\n")
  {
  }

  /** With the methods' contracts: the other way round, both build a new string. */
  lemma TestMutated()
    ensures HasCrlf("\r\nfoo\r\nbar\r\n")
    ensures !EveryLfAfterCr("\nfoo\nbar\n")
  {
    assert DropsAt("\r\nfoo\r\nbar\r\n", 0);
    assert "\nfoo\nbar\n"[0] == '\n';
  }

  // ------------------------------------------------- byte offsets as written

  /** Bytes that `c` takes in UTF-8. */
  function Utf8Width(c: char): nat
  {
    if c as int < 0x80 then 1
    else if c as int < 0x800 then 2
    else if c as int < 0x1_0000 then 3
    else 4
  }

  /**
   * Rust's `str::split_at(n)`, left half: the characters that fill the first
   * `n` bytes; `None` (a panic) when `n` is past the end or inside a character.
   */
  function BytePrefix(s: string, n: nat): (r: Option<string>)
    ensures r.Some? ==> r.value <= s
  {
    if n == 0 then Some([])
    else if s == [] || n < Utf8Width(s[0]) then None
    else
      match BytePrefix(s[1..], n - Utf8Width(s[0]))
      case None => None
      case Some(p) => Some([s[0]] + p)
  }

  predicate IsAscii(s: string)
  {
    forall k :: 0 <= k < |s| ==> s[k] as int < 0x80
  }

  /** On ASCII text a byte offset is a character offset. */
  lemma {:induction false} BytePrefixOfAscii(s: string, n: nat)
    requires IsAscii(s) && n <= |s|
    ensures BytePrefix(s, n) == Some(s[..n])
  {
    if n > 0 {
      assert IsAscii(s[1..]) by {
        forall k | 0 <= k < |s[1..]| ensures s[1..][k] as int < 0x80 {
          assert s[1..][k] == s[k + 1];
        }
      }
      BytePrefixOfAscii(s[1..], n - 1);
      assert [s[0]] + s[1..][..n - 1] == s[..n];
    }
  }

  /** Index of the first CRLF pair at or after `i`, if any. */
  function FirstDrop(s: string, i: nat): (r: Option<nat>)
    requires i <= |s|
    ensures r.Some? ==> i <= r.value < |s| && DropsAt(s, r.value)
    ensures r.Some? ==> forall k :: i <= k < r.value ==> !DropsAt(s, k)
    ensures r.None? ==> forall k :: i <= k < |s| ==> !DropsAt(s, k)
    decreases |s| - i
  {
    if i == |s| then None
    else if DropsAt(s, i) then Some(i)
    else FirstDrop(s, i + 1)
  }

  /** Index of the first bare line feed at or after `i`, if any. */
  function FirstInsert(s: string, i: nat): (r: Option<nat>)
    requires i <= |s|
    ensures r.Some? ==> i <= r.value < |s| && InsertsAt(s, r.value)
    ensures r.Some? ==> forall k :: i <= k < r.value ==> !InsertsAt(s, k)
    ensures r.None? ==> forall k :: i <= k < |s| ==> !InsertsAt(s, k)
    decreases |s| - i
  {
    if i == |s| then None
    else if InsertsAt(s, i) then Some(i)
    else FirstInsert(s, i + 1)
  }

  /**
   * dos2unix as written: at the first CRLF pair, character index `i`, the
   * buffer starts with `input.split_at(i)`, a byte offset. `None` is the panic.
   */
  function Dos2UnixAsWritten(s: string): Option<Cow>
  {
    match FirstDrop(s, 0)
    case None => Some(Borrowed(s))
    case Some(i) =>
      match BytePrefix(s, i)
      case None => None
      case Some(past) => Some(Owned(past + KeptFrom(s, i + 1)))
  }

  /** unix2dos as written, with the same byte offset. */
  function Unix2DosAsWritten(s: string): Option<Cow>
  {
    match FirstInsert(s, 0)
    case None => Some(Borrowed(s))
    case Some(i) =>
      match BytePrefix(s, i)
      case None => None
      case Some(past) => Some(Owned(past + AddedFrom(s, i)))
  }

  /** Nothing before `i` drops: the kept text starts with `s[..i]`. */
  lemma {:induction false} KeptFromPrefix(s: string, j: nat, i: nat)
    requires j <= i <= |s|
    requires forall k :: j <= k < i ==> !DropsAt(s, k)
    ensures KeptFrom(s, j) == s[j..i] + KeptFrom(s, i)
    decreases i - j
  {
    if j == i {
      assert s[j..i] == [];
    } else {
      var rest := KeptFrom(s, i);
      KeptFromPrefix(s, j + 1, i);
      assert !DropsAt(s, j);
      assert KeptFrom(s, j) == [s[j]] + KeptFrom(s, j + 1);
      var mid := s[j + 1..i];
      assert s[j..i] == [s[j]] + mid;
      assert [s[j]] + (mid + rest) == ([s[j]] + mid) + rest;
    }
  }

  /** Nothing before `i` gets a carriage return: the output starts with `s[..i]`. */
  lemma {:induction false} AddedFromPrefix(s: string, j: nat, i: nat)
    requires j <= i <= |s|
    requires forall k :: j <= k < i ==> !InsertsAt(s, k)
    ensures AddedFrom(s, j) == s[j..i] + AddedFrom(s, i)
    decreases i - j
  {
    if j == i {
      assert s[j..i] == [];
    } else {
      var rest := AddedFrom(s, i);
      AddedFromPrefix(s, j + 1, i);
      assert !InsertsAt(s, j);
      assert AddedFrom(s, j) == [s[j]] + AddedFrom(s, j + 1);
      var mid := s[j + 1..i];
      assert s[j..i] == [s[j]] + mid;
      assert [s[j]] + (mid + rest) == ([s[j]] + mid) + rest;
    }
  }

  /** On ASCII input the code as written does what `Dos2Unix` is proved to do. */
  lemma Dos2UnixAsWrittenOnAscii(s: string)
    requires IsAscii(s)
    ensures Dos2UnixAsWritten(s) == Some(if HasCrlf(s) then Owned(ReplaceCrlf(s)) else Borrowed(s))
  {
    match FirstDrop(s, 0)
    case None =>
      assert !HasCrlf(s);
    case Some(i) =>
      assert DropsAt(s, i);
      assert HasCrlf(s);
      BytePrefixOfAscii(s, i);
      KeptFromPrefix(s, 0, i);
      KeptFromIsReplaceCrlf(s, 0);
      assert s[0..] == s && s[0..i] == s[..i];
      assert KeptFrom(s, i) == KeptFrom(s, i + 1);
  }

  /** On ASCII input the code as written does what `Unix2Dos` is proved to do. */
  lemma Unix2DosAsWrittenOnAscii(s: string)
    requires IsAscii(s)
    ensures Unix2DosAsWritten(s) == Some(if EveryLfAfterCr(s) then Borrowed(s) else Owned(ReplaceBareLf(s)))
  {
    NoInsertionIffEveryLfAfterCr(s);
    match FirstInsert(s, 0)
    case None =>
    case Some(i) =>
      BytePrefixOfAscii(s, i);
      AddedFromPrefix(s, 0, i);
      AddedFromIsReplaceBareLf(s, 0);
      assert s[0..] == s;
      assert s[0..i] == s[..i];
  }

  /** "éa\r\n": the first pair is at character 2, but two bytes hold only "é", so the "a" is lost. */
  lemma Dos2UnixAsWrittenLosesText()
    ensures Dos2UnixAsWritten("\U{E9}a\r\n") == Some(Owned("\U{E9}\n"))
    ensures ReplaceCrlf("\U{E9}a\r\n") == "\U{E9}a\n"
  {
    var s := "\U{E9}a\r\n";
    assert !DropsAt(s, 0) && !DropsAt(s, 1) && DropsAt(s, 2);
    assert FirstDrop(s, 2) == Some(2);
    assert FirstDrop(s, 1) == Some(2);
    assert FirstDrop(s, 0) == Some(2);
    assert Utf8Width(s[0]) == 2;
    assert BytePrefix(s[1..], 0) == Some([]);
    assert BytePrefix(s, 2) == Some([s[0]] + []);
    assert [s[0]] + [] == "\U{E9}";
    assert KeptFrom(s, 3) == "\n";
    assert Dos2UnixAsWritten(s) == Some(Owned("\U{E9}" + "\n"));
    assert "\U{E9}" + "\n" == "\U{E9}\n";
    LineBreaks();
    CrlfPlainPrefix("\U{E9}a", "\r\n");
    assert s == "\U{E9}a" + "\r\n";
  }

  /** "é\r\n": character offset 1 is inside the two bytes of "é", so `split_at` panics. */
  lemma Dos2UnixAsWrittenPanics()
    ensures Dos2UnixAsWritten("\U{E9}\r\n") == None
  {
    var s := "\U{E9}\r\n";
    assert !DropsAt(s, 0) && DropsAt(s, 1);
    assert FirstDrop(s, 1) == Some(1);
    assert FirstDrop(s, 0) == Some(1);
  }

  /** "éa\n": the bare line feed is at character 2; the copy keeps only "é". */
  lemma Unix2DosAsWrittenLosesText()
    ensures Unix2DosAsWritten("\U{E9}a\n") == Some(Owned("\U{E9}\r\n"))
    ensures ReplaceBareLf("\U{E9}a\n") == "\U{E9}a\r\n"
  {
    var s := "\U{E9}a\n";
    assert !InsertsAt(s, 0) && !InsertsAt(s, 1) && InsertsAt(s, 2);
    assert FirstInsert(s, 2) == Some(2);
    assert FirstInsert(s, 1) == Some(2);
    assert FirstInsert(s, 0) == Some(2);
    assert Utf8Width(s[0]) == 2;
    assert BytePrefix(s[1..], 0) == Some([]);
    assert BytePrefix(s, 2) == Some([s[0]] + []);
    assert [s[0]] + [] == "\U{E9}";
    assert AddedFrom(s, 2) == "\r\n";
    assert Unix2DosAsWritten(s) == Some(Owned("\U{E9}" + "\r\n"));
    assert "\U{E9}" + "\r\n" == "\U{E9}\r\n";
    LineBreaks();
    BareLfPlainPrefix("\U{E9}a", "\n");
    assert s == "\U{E9}a" + "\n";
  }

  /** "é\n": `split_at(1)` panics. */
  lemma Unix2DosAsWrittenPanics()
    ensures Unix2DosAsWritten("\U{E9}\n") == None
  {
    var s := "\U{E9}\n";
    assert !InsertsAt(s, 0) && InsertsAt(s, 1);
    assert FirstInsert(s, 1) == Some(1);
    assert FirstInsert(s, 0) == Some(1);
  }
}
