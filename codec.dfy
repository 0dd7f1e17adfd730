/**
  The frame codec of the view model: the text of outgoing command and status
  frames, the split of a received text on the `##` terminator, and the test of
  one segment against the inbound frame pattern `^\*(\d+)\*(\d+)\*(\d+)$`.
 */
module Codec {
  import opened Wrappers

  /** Kotlin's `Int`: a signed 32-bit integer. */
  const IntLimit: int := 0x8000_0000
  type Int32 = x: int | -0x8000_0000 <= x < 0x8000_0000

  /** The frame terminator; also the separator `parseResponse` splits on. */
  const Terminator: string := "##"
  /** The handshake that selects command-channel semantics on the controller. */
  const CommandHandshake: string := "*99*0##"

  // ---------------------------------------------------------------------------
  // Read buffers

  /** The size of the read buffer, `ByteBuffer.allocate(32)`. */
  const BufferSize: nat := 32

  /** A text of NUL characters, the unused tail of a read buffer. */
  predicate IsNulPadding(s: string) { forall i :: 0 <= i < |s| ==> s[i] == 0 as char }

  /** `n` NUL characters. */
  function Nuls(n: nat): (s: string)
    ensures |s| == n && IsNulPadding(s)
  {
    seq(n, _ => 0 as char)
  }

  // ---------------------------------------------------------------------------
  // Decimal numbers

  predicate IsDigit(c: char) { '0' <= c <= '9' }

  predicate AllDigits(s: string) { forall i :: 0 <= i < |s| ==> IsDigit(s[i]) }

  /** What `\d+` matches: a non-empty run of ASCII digits. */
  predicate IsDigitRun(s: string) { |s| > 0 && AllDigits(s) }

  lemma DigitRunHasNoHash(s: string)
    requires IsDigitRun(s)
    ensures '#' !in s && '*' !in s
  {
  }

  /** A frame body built from digit runs holds no `#`, so it is a segment by itself. */
  lemma FrameBodyHasNoHash(who: string, what: string, where: string)
    requires IsDigitRun(who) && IsDigitRun(what) && IsDigitRun(where)
    ensures '#' !in "*" + who + "*" + what + "*" + where
  {
    DigitRunHasNoHash(who);
    DigitRunHasNoHash(what);
    DigitRunHasNoHash(where);
  }

  function DigitChar(d: nat): (c: char)
    requires d < 10
    ensures IsDigit(c)
  {
    ('0' as int + d) as char
  }

  function DigitValue(c: char): (d: nat)
    requires IsDigit(c)
    ensures d < 10
  {
    c as int - '0' as int
  }

  /** Decimal rendering of a natural number, most significant digit first. */
  function Digits(n: nat): (s: string)
    ensures IsDigitRun(s)
    ensures n < 10 <==> |s| == 1
  {
    if n < 10 then [DigitChar(n)] else Digits(n / 10) + [DigitChar(n % 10)]
  }

  /** The value of a run of decimal digits; leading zeros are allowed, as in `toInt`. */
  function DigitsValue(s: string): (v: nat)
    requires AllDigits(s)
  {
    if s == [] then 0 else DigitsValue(s[..|s| - 1]) * 10 + DigitValue(s[|s| - 1])
  }

  lemma {:induction false} DigitsValueOfDigits(n: nat)
    ensures DigitsValue(Digits(n)) == n
  {
    if n >= 10 {
      var s := Digits(n);
      assert s[..|s| - 1] == Digits(n / 10);
      DigitsValueOfDigits(n / 10);
    }
  }

  /** Kotlin's `Int.toString()`, as used inside a string template. */
  function IntToString(i: Int32): (s: string)
    ensures |s| > 0 && '#' !in s && '*' !in s
    ensures i >= 0 ==> IsDigitRun(s)
    ensures i < 0 ==> s[0] == '-'
  {
    if i < 0 then "-" + Digits(-(i as int)) else Digits(i)
  }

  /**
    Kotlin's `String.toInt()` on a digit run: `None` where it throws
    `NumberFormatException` because the value does not fit an `Int`.
   */
  function ToInt(s: string): (r: Option<Int32>)
    requires IsDigitRun(s)
    ensures r.Some? <==> DigitsValue(s) < IntLimit
    ensures r.Some? ==> r.value == DigitsValue(s) && r.value >= 0
  {
    var v := DigitsValue(s);
    if v < IntLimit then Some(v) else None
  }

  /** `toInt` reads back what `toString` wrote, for every non-negative `Int`. */
  lemma ToIntOfIntToString(i: Int32)
    requires i >= 0
    ensures ToInt(IntToString(i)) == Some(i)
  {
    DigitsValueOfDigits(i);
  }

  // ---------------------------------------------------------------------------
  // Outgoing frames

  /** A command frame without its terminator: `*who*what*where`. */
  function CommandBody(who: Int32, what: Int32, where: Int32): (s: string)
  {
    "*" + IntToString(who) + "*" + IntToString(what) + "*" + IntToString(where)
  }

  /** `buildCommand`: `*who*what*where##`. */
  function BuildCommand(who: Int32, what: Int32, where: Int32): (s: string)
    ensures s == CommandBody(who, what, where) + Terminator
    ensures '#' !in CommandBody(who, what, where)
  {
    CommandBody(who, what, where) + Terminator
  }

  /** `buildStatusCommand`: `*#who*where##`. */
  function BuildStatusCommand(who: Int32, where: Int32): (s: string)
    ensures |s| >= 6 && s[..2] == "*#" && s[|s| - 2..] == Terminator
  {
    "*#" + IntToString(who) + "*" + IntToString(where) + Terminator
  }

  // ---------------------------------------------------------------------------
  // Splitting a received text on the terminator

  /**
    Kotlin's `split("##")`: scans left to right and cuts at every
    non-overlapping occurrence, so "a###" gives ["a", "#"], and a trailing
    terminator leaves a trailing "".
   */
  function Split(s: string): (parts: seq<string>)
    ensures |parts| >= 1 && parts[0] <= s
    decreases |s|
  {
    if |s| < 2 then [s]
    else if s[..2] == Terminator then [""] + Split(s[2..])
    else
      var rest := Split(s[1..]);
      [[s[0]] + rest[0]] + rest[1..]
  }

  /** `joinToString("##")`: the inverse of `Split`. */
  function Join(parts: seq<string>): (s: string)
    requires |parts| >= 1
  {
    if |parts| == 1 then parts[0] else parts[0] + Terminator + Join(parts[1..])
  }

  predicate HasTerminatorAt(s: string, i: int) { 0 <= i < |s| - 1 && s[i] == '#' && s[i + 1] == '#' }

  /** Sequence layout for `JoinCons`: gluing a character onto the first part of a join. */
  lemma GlueLayout(c: char, p: string, j: string)
    ensures ([c] + p) + Terminator + j == [c] + (p + Terminator + j)
  {
  }

  /** Gluing a character to the first part glues it to the front of the join. */
  lemma JoinCons(c: char, parts: seq<string>)
    requires |parts| >= 1
    ensures Join([[c] + parts[0]] + parts[1..]) == [c] + Join(parts)
  {
    var glued := [[c] + parts[0]] + parts[1..];
    assert |glued| == |parts| && glued[0] == [c] + parts[0];
    if |parts| > 1 {
      var j := Join(parts[1..]);
      assert glued[1..] == parts[1..];
      assert Join(glued) == glued[0] + Terminator + j;
      assert Join(parts) == parts[0] + Terminator + j;
      GlueLayout(c, parts[0], j);
    }
  }

  /** Nothing is lost or added by the split. */
  lemma {:induction false} JoinSplit(s: string)
    ensures Join(Split(s)) == s
    decreases |s|
  {
    if |s| < 2 {
    } else if s[..2] == Terminator {
      JoinSplit(s[2..]);
      assert s == Terminator + s[2..];
    } else {
      JoinSplit(s[1..]);
      JoinCons(s[0], Split(s[1..]));
      assert s == [s[0]] + s[1..];
    }
  }

  /** No segment holds a terminator: every occurrence was cut. */
  lemma {:induction false} SplitSegmentsHaveNoTerminator(s: string, k: nat, i: int)
    requires k < |Split(s)|
    ensures !HasTerminatorAt(Split(s)[k], i)
    decreases |s|
  {
    if |s| < 2 {
    } else if s[..2] == Terminator {
      if k > 0 { SplitSegmentsHaveNoTerminator(s[2..], k - 1, i); }
    } else {
      var rest := Split(s[1..]);
      if k > 0 {
        SplitSegmentsHaveNoTerminator(s[1..], k, i);
      } else if i > 0 {
        SplitSegmentsHaveNoTerminator(s[1..], 0, i - 1);
      } else if i == 0 && |rest[0]| > 0 {
        assert rest[0][0] == s[1];
      }
    }
  }

  /** A text without `#` is a single segment. */
  lemma {:induction false} SplitWithoutHash(s: string)
    requires '#' !in s
    ensures Split(s) == [s]
    decreases |s|
  {
    if |s| >= 2 {
      assert s[0] != '#';
      assert '#' !in s[1..];
      SplitWithoutHash(s[1..]);
      assert [s[0]] + s[1..] == s;
    }
  }

  /** A `#`-free segment followed by the terminator is cut off as the first part. */
  lemma SplitAfterPlainSegment(seg: string, rest: string)
    requires '#' !in seg
    ensures Split(seg + Terminator + rest) == [seg] + Split(rest)
  {
    assert seg != [] ==> seg[|seg| - 1] in seg;
    SplitAfterSegment(seg, rest);
  }

  /** A text in which no `##` occurs. */
  predicate NoTerminator(p: string) { forall i :: 0 <= i < |p| ==> !HasTerminatorAt(p, i) }

  predicate EndsInHash(p: string) { |p| > 0 && p[|p| - 1] == '#' }

  /**
    The shape of what the left-to-right split yields: at least one part, no
    part holds a terminator, and no part but the last ends in `#` (a `#`
    before a terminator would have been cut as the terminator's first half).
   */
  predicate IsSplitForm(parts: seq<string>)
  {
    |parts| >= 1 &&
    (forall k :: 0 <= k < |parts| ==> NoTerminator(parts[k])) &&
    (forall k :: 0 <= k < |parts| - 1 ==> !EndsInHash(parts[k]))
  }

  /** An empty first part followed by more parts means the text starts with the terminator. */
  lemma SplitEmptyHead(t: string)
    requires Split(t)[0] == [] && |Split(t)| > 1
    ensures |t| >= 2 && t[..2] == Terminator
  {
  }

  /** The cut is leftmost: no part but the last ends in `#`, so "a###" gives ["a", "#"] and not ["a#", ""]. */
  lemma {:induction false} SplitPartsDoNotEndInHash(s: string, k: nat)
    requires k < |Split(s)| - 1
    ensures !EndsInHash(Split(s)[k])
    decreases |s|
  {
    if |s| < 2 {
    } else if s[..2] == Terminator {
      if k > 0 { SplitPartsDoNotEndInHash(s[2..], k - 1); }
    } else {
      var rest := Split(s[1..]);
      if k > 0 {
        SplitPartsDoNotEndInHash(s[1..], k);
      } else if rest[0] == [] {
        SplitEmptyHead(s[1..]);
        assert s[1] == '#';
        assert s[0] != '#' by { assert s[..2] == [s[0], s[1]]; }
      } else {
        SplitPartsDoNotEndInHash(s[1..], 0);
      }
    }
  }

  /** The split of every text has the split form. */
  lemma SplitHasSplitForm(s: string)
    ensures IsSplitForm(Split(s))
  {
    var parts := Split(s);
    forall k | 0 <= k < |parts|
      ensures NoTerminator(parts[k])
    {
      forall i | 0 <= i < |parts[k]| ensures !HasTerminatorAt(parts[k], i) { SplitSegmentsHaveNoTerminator(s, k, i); }
    }
    forall k | 0 <= k < |parts| - 1
      ensures !EndsInHash(parts[k])
    {
      SplitPartsDoNotEndInHash(s, k);
    }
  }

  /** A text without a terminator is one part. */
  lemma {:induction false} NoTerminatorSplit(t: string)
    requires NoTerminator(t)
    ensures Split(t) == [t]
    decreases |t|
  {
    if |t| >= 2 {
      assert !HasTerminatorAt(t, 0);
      assert t[..2] != Terminator;
      forall i | 0 <= i < |t[1..]| ensures !HasTerminatorAt(t[1..], i) { assert !HasTerminatorAt(t, i + 1); }
      NoTerminatorSplit(t[1..]);
      assert [t[0]] + t[1..] == t;
    }
  }

  /** Sequence layout for `SplitAfterSegment`: where the pieces of `seg ## rest` sit, for a non-empty `seg`. */
  lemma SegmentLayout(seg: string, rest: string)
    requires |seg| > 0
    ensures var s := seg + Terminator + rest;
      |s| >= 2 && s[..2] == [seg[0], if |seg| == 1 then '#' else seg[1]] &&
      s[1..] == seg[1..] + Terminator + rest && [s[0]] + seg[1..] == seg
  {
    var s := seg + Terminator + rest;
    assert s[..2] == [s[0], s[1]];
  }

  /** A part of the split form, then the terminator: cut off as the first part. */
  lemma {:induction false} SplitAfterSegment(seg: string, rest: string)
    requires NoTerminator(seg) && !EndsInHash(seg)
    ensures Split(seg + Terminator + rest) == [seg] + Split(rest)
    decreases |seg|
  {
    if seg == [] {
      assert seg + Terminator + rest == Terminator + rest;
    } else {
      SegmentLayout(seg, rest);
      assert |seg| > 1 ==> !HasTerminatorAt(seg, 0);
      var tail := seg[1..];
      forall i | 0 <= i < |tail| ensures !HasTerminatorAt(tail, i) { assert !HasTerminatorAt(seg, i + 1); }
      assert tail != [] ==> tail[|tail| - 1] == seg[|seg| - 1];
      SplitAfterSegment(tail, rest);
    }
  }

  /**
    The split is the only list of the split form that joins back to the
    text: with `JoinSplit`, `Split` and `Join` are inverse bijections between
    texts and lists of the split form.
   */
  lemma {:induction false} SplitJoin(parts: seq<string>)
    requires IsSplitForm(parts)
    ensures Split(Join(parts)) == parts
    decreases |parts|
  {
    if |parts| == 1 {
      NoTerminatorSplit(parts[0]);
    } else {
      var tail := parts[1..];
      assert IsSplitForm(tail) by {
        assert forall k :: 0 <= k < |tail| ==> tail[k] == parts[k + 1];
      }
      SplitJoin(tail);
      assert !EndsInHash(parts[0]);
      SplitAfterSegment(parts[0], Join(tail));
      assert [parts[0]] + tail == parts;
    }
  }

  // ---------------------------------------------------------------------------
  // The inbound frame pattern

  /** The three groups `(\d+)` captured by the frame pattern, as text. */
  datatype Groups = Groups(who: string, what: string, where: string)

  /** Length of the longest prefix made of digits (what a greedy `\d+` consumes). */
  function DigitPrefix(s: string): (n: nat)
    ensures n <= |s| && AllDigits(s[..n])
    ensures n < |s| ==> !IsDigit(s[n])
  {
    if s == [] || !IsDigit(s[0]) then 0
    else
      var m := DigitPrefix(s[1..]);
      assert s[..1 + m] == [s[0]] + s[1..][..m];
      1 + m
  }

  /**
    `ownMessagePattern.matches(segment)` together with the groups
    `find(segment)!!.destructured` yields. The pattern is anchored at both ends
    and `\d` is ASCII-only, so the whole segment must be `*digits*digits*digits`.
   */
  function MatchFrame(s: string): (r: Option<Groups>)
    ensures r.Some? ==> |s| > 0 && s[0] == '*'
    ensures r.Some? ==> IsDigitRun(r.value.who) && IsDigitRun(r.value.what) && IsDigitRun(r.value.where)
  {
    if |s| == 0 || s[0] != '*' then None
    else
      var a := s[1..];
      var n1 := DigitPrefix(a);
      if n1 == 0 || n1 == |a| || a[n1] != '*' then None
      else
        var b := a[n1 + 1..];
        var n2 := DigitPrefix(b);
        if n2 == 0 || n2 == |b| || b[n2] != '*' then None
        else
          var c := b[n2 + 1..];
          if IsDigitRun(c) then Some(Groups(a[..n1], b[..n2], c)) else None
  }

  /** The shape the frame pattern describes, stated directly. */
  predicate IsFrame(s: string, g: Groups)
  {
    IsDigitRun(g.who) && IsDigitRun(g.what) && IsDigitRun(g.where) &&
    s == "*" + g.who + "*" + g.what + "*" + g.where
  }

  lemma {:induction false} DigitPrefixOfRun(x: string, t: string)
    requires AllDigits(x)
    requires t == [] || !IsDigit(t[0])
    ensures DigitPrefix(x + t) == |x|
    decreases |x|
  {
    if x == [] {
      assert x + t == t;
    } else {
      assert (x + t)[1..] == x[1..] + t;
      DigitPrefixOfRun(x[1..], t);
    }
  }

  /** Sequence layout for the matcher proofs: a text with `*` at position `n` is what comes before it, the `*`, and what comes after. */
  lemma CutAtStar(s: string, n: nat)
    requires n < |s| && s[n] == '*'
    ensures s == s[..n] + "*" + s[n + 1..]
  {
  }

  /** Sequence layout for the matcher proofs: the text around the second and third `*`. */
  lemma Reassemble(s: string, a: string, b: string, x: string, y: string, z: string)
    requires s == "*" + a && a == x + "*" + b && b == y + "*" + z
    ensures s == "*" + x + "*" + y + "*" + z
  {
    assert a == x + "*" + y + "*" + z;
  }

  /** Sequence layout for the matcher proofs: where the pieces of `*x*y*z` sit, as `MatchFrame` looks for them. */
  lemma FrameLayout(s: string, x: string, y: string, z: string)
    requires s == "*" + x + "*" + y + "*" + z
    ensures |s| > 0 && s[0] == '*'
    ensures var a := s[1..];
      a == x + ("*" + y + "*" + z) && a[..|x|] == x && a[|x|] == '*' &&
      var b := a[|x| + 1..];
      b == y + ("*" + z) && b[..|y|] == y && b[|y|] == '*' && b[|y| + 1..] == z
  {
    var a := s[1..];
    assert a == x + ("*" + y + "*" + z);
    var b := a[|x| + 1..];
    assert b == y + ("*" + z);
  }

  lemma MatchFrameSound(s: string)
    requires MatchFrame(s).Some?
    ensures IsFrame(s, MatchFrame(s).value)
  {
    var a := s[1..];
    var n1 := DigitPrefix(a);
    var b := a[n1 + 1..];
    var n2 := DigitPrefix(b);
    var c := b[n2 + 1..];
    CutAtStar(b, n2);
    CutAtStar(a, n1);
    assert s == "*" + a;
    Reassemble(s, a, b, a[..n1], b[..n2], c);
  }

  /** A segment whose last character is not a digit never matches, whatever comes before. */
  lemma UnmatchedIfLastNotDigit(s: string)
    requires |s| > 0 && !IsDigit(s[|s| - 1])
    ensures MatchFrame(s) == None
  {
    if MatchFrame(s).Some? {
      MatchFrameSound(s);
      assert false;
    }
  }

  lemma MatchFrameComplete(s: string, g: Groups)
    requires IsFrame(s, g)
    ensures MatchFrame(s) == Some(g)
  {
    FrameLayout(s, g.who, g.what, g.where);
    DigitPrefixOfRun(g.who, "*" + g.what + "*" + g.where);
    DigitPrefixOfRun(g.what, "*" + g.where);
  }

  /** `MatchFrame` accepts exactly the segments of the frame shape, and returns their groups. */
  lemma MatchFrameIff(s: string, g: Groups)
    ensures MatchFrame(s) == Some(g) <==> IsFrame(s, g)
  {
    if MatchFrame(s) == Some(g) { MatchFrameSound(s); }
    if IsFrame(s, g) { MatchFrameComplete(s, g); }
  }

  /**
    The body of a command frame matches the pattern exactly when no field is
    negative (a negative field renders with a `-`, which `\d` rejects).
   */
  lemma MatchCommandBody(who: Int32, what: Int32, where: Int32)
    ensures MatchFrame(CommandBody(who, what, where)) ==
            if who >= 0 && what >= 0 && where >= 0
            then Some(Groups(IntToString(who), IntToString(what), IntToString(where)))
            else None
  {
    var x, y, z := IntToString(who), IntToString(what), IntToString(where);
    var s := CommandBody(who, what, where);
    if who >= 0 && what >= 0 && where >= 0 {
      MatchFrameComplete(s, Groups(x, y, z));
    } else {
      FrameLayout(s, x, y, z);
      var a := s[1..];
      if who >= 0 {
        DigitPrefixOfRun(x, "*" + y + "*" + z);
        var b := a[|x| + 1..];
        if what >= 0 {
          DigitPrefixOfRun(y, "*" + z);
          assert !IsDigit(z[0]);
        } else {
          assert b[0] == '-';
        }
      } else {
        assert a[0] == '-';
      }
    }
  }

  /** An outgoing command frame happens to have exactly the inbound-frame shape. */
  lemma SplitCommand(who: Int32, what: Int32, where: Int32, rest: string)
    ensures Split(BuildCommand(who, what, where) + rest) == [CommandBody(who, what, where)] + Split(rest)
  {
    var body := CommandBody(who, what, where);
    assert BuildCommand(who, what, where) + rest == body + Terminator + rest;
    SplitAfterPlainSegment(body, rest);
  }

  /** One character that does not start a terminator joins the first segment. */
  lemma SplitCons(c: char, t: string)
    requires c != '#' || t == [] || t[0] != '#'
    ensures Split([c] + t) == [[c] + Split(t)[0]] + Split(t)[1..]
  {
    var s := [c] + t;
    assert s[1..] == t;
    if |s| < 2 {
      assert t == [];
    } else {
      assert s[..2] != Terminator by { assert s[0] == c && s[1] == t[0]; }
    }
  }

  /** Sequence layout for `SplitStatusShape`: the status frame text, one character at a time from the front. */
  lemma StatusLayout(p: string, q: string)
    ensures "*#" + p + "*" + q + Terminator == ['*'] + (['#'] + ((p + "*" + q) + Terminator))
    ensures "*#" + p + "*" + q == ['*'] + (['#'] + (p + "*" + q))
  {
  }

  /** A `#`-free `p*q` behind `*#` and before the terminator stays one segment. */
  lemma SplitStatusShape(p: string, q: string)
    requires '#' !in p && '#' !in q
    ensures Split("*#" + p + "*" + q + Terminator) == ["*#" + p + "*" + q, ""]
  {
    var x := p + "*" + q;
    var t := x + Terminator;
    SplitAfterPlainSegment(x, "");
    assert x + Terminator + "" == t;
    assert Split("") == [""];
    SplitCons('#', t);
    var u := ['#'] + t;
    SplitCons('*', u);
    StatusLayout(p, q);
  }

  /** A status frame splits into its `*#`-prefixed body and the trailing "". */
  lemma SplitStatusCommand(who: Int32, where: Int32)
    ensures Split(BuildStatusCommand(who, where)) == ["*#" + IntToString(who) + "*" + IntToString(where), ""]
  {
    SplitStatusShape(IntToString(who), IntToString(where));
  }
}
