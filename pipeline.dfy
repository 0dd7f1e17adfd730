/**
  What `parseResponse` does to the registry, and what the single consumer
  `processResponseQueue` does with the queued texts, as functions of the
  registry value. A field that does not fit an `Int` makes `toInt` throw out of
  `parseResponse` and ends the consumer; an `Outcome` with `alive == false`
  carries the registry as the exception left it.
 */
module Pipeline {
  import opened Wrappers
  import opened Codec
  import opened Registry

  /** The protocol's acknowledgement and refusal frames. */
  const Ack: string := "*#*1##"
  const Nack: string := "*#*0##"

  /** The registry after a step, and whether the consumer is still running. */
  datatype Outcome = Outcome(reg: Registry, alive: bool)

  /** The `when (who)` dispatch: 1 updates a light, 2 a shutter, anything else nothing. */
  function Route(reg: Registry, who: Int32, where: Int32, what: Int32): (r: Registry)
    requires reg.Valid()
    ensures r.Valid() && SameCatalog(reg, r)
  {
    if who == 1 then reg.(lights := SetState(reg.lights, reg.lightsMap, where, what))
    else if who == 2 then reg.(shutters := SetState(reg.shutters, reg.shuttersMap, where, what))
    else reg
  }

  /**
    The frame of kind `who` and id `where` now has state `what`; every other
    device, of either kind, reads as before.
   */
  lemma RouteEffect(reg: Registry, who: Int32, where: Int32, what: Int32, id: Int32)
    requires reg.Valid()
    ensures var r := Route(reg, who, where, what);
      Lookup(r.lights, r.lightsMap, id) ==
        (if who == 1 && id == where && where in reg.lightsMap
         then Some(Lookup(reg.lights, reg.lightsMap, id).value.(state := what))
         else Lookup(reg.lights, reg.lightsMap, id)) &&
      Lookup(r.shutters, r.shuttersMap, id) ==
        (if who == 2 && id == where && where in reg.shuttersMap
         then Some(Lookup(reg.shutters, reg.shuttersMap, id).value.(state := what))
         else Lookup(reg.shutters, reg.shuttersMap, id))
  {
    LookupAfterSetState(reg.lights, reg.lightsMap, where, what, id);
    LookupAfterSetState(reg.shutters, reg.shuttersMap, where, what, id);
  }

  /**
    One segment of `parseResponse`'s `forEach`: a segment the pattern rejects is
    skipped; otherwise `who.toInt()` is evaluated, and only for a light or a
    shutter `where.toInt()` and `what.toInt()`. A failing `toInt` stops the
    consumer.
   */
  function ApplySegment(reg: Registry, segment: string): (o: Outcome)
    requires reg.Valid()
    ensures o.reg.Valid() && SameCatalog(reg, o.reg)
  {
    match MatchFrame(segment)
    case None => Outcome(reg, true)
    case Some(g) =>
      MatchFrameSound(segment);
      match ToInt(g.who)
      case None => Outcome(reg, false)
      case Some(who) =>
        if who == 1 || who == 2 then
          match (ToInt(g.where), ToInt(g.what))
          case (Some(where), Some(what)) => Outcome(Route(reg, who, where, what), true)
          case _ => Outcome(reg, false)
        else Outcome(reg, true)
  }

  /** The segments applied left to right, stopping at the first failing `toInt`. */
  function ApplySegments(reg: Registry, segments: seq<string>): (o: Outcome)
    requires reg.Valid()
    ensures o.reg.Valid() && SameCatalog(reg, o.reg)
    decreases |segments|
  {
    if segments == [] then Outcome(reg, true)
    else
      var o := ApplySegment(reg, segments[0]);
      if !o.alive then o else ApplySegments(o.reg, segments[1..])
  }

  /** `parseResponse(response)`. */
  function ApplyResponse(reg: Registry, response: string): (o: Outcome)
    requires reg.Valid()
    ensures o.reg.Valid() && SameCatalog(reg, o.reg)
  {
    ApplySegments(reg, Split(response))
  }

  /** `processResponseQueue`: the queued texts parsed in FIFO order until the consumer dies. */
  function ApplyQueue(reg: Registry, queue: seq<string>): (o: Outcome)
    requires reg.Valid()
    ensures o.reg.Valid() && SameCatalog(reg, o.reg)
    decreases |queue|
  {
    if queue == [] then Outcome(reg, true)
    else
      var o := ApplyResponse(reg, queue[0]);
      if !o.alive then o else ApplyQueue(o.reg, queue[1..])
  }

  // ---------------------------------------------------------------------------
  // Ordering

  /** Applying a concatenation of segment lists applies the first, then (if alive) the second. */
  lemma {:induction false} ApplySegmentsAppend(reg: Registry, xs: seq<string>, ys: seq<string>)
    requires reg.Valid()
    ensures var o := ApplySegments(reg, xs);
      ApplySegments(reg, xs + ys) == if o.alive then ApplySegments(o.reg, ys) else o
    decreases |xs|
  {
    if xs == [] {
      assert xs + ys == ys;
    } else {
      assert (xs + ys)[1..] == xs[1..] + ys;
      var o := ApplySegment(reg, xs[0]);
      if o.alive { ApplySegmentsAppend(o.reg, xs[1..], ys); }
    }
  }

  /** The same for the queue: texts queued later are parsed after earlier ones, against their result. */
  lemma {:induction false} ApplyQueueAppend(reg: Registry, xs: seq<string>, ys: seq<string>)
    requires reg.Valid()
    ensures var o := ApplyQueue(reg, xs);
      ApplyQueue(reg, xs + ys) == if o.alive then ApplyQueue(o.reg, ys) else o
    decreases |xs|
  {
    if xs == [] {
      assert xs + ys == ys;
    } else {
      assert (xs + ys)[1..] == xs[1..] + ys;
      var o := ApplyResponse(reg, xs[0]);
      if o.alive { ApplyQueueAppend(o.reg, xs[1..], ys); }
    }
  }

  lemma ApplySegmentsSingle(reg: Registry, segment: string)
    requires reg.Valid()
    ensures ApplySegments(reg, [segment]) == ApplySegment(reg, segment)
  {
    assert [segment][1..] == [];
  }

  lemma ApplyQueueSingle(reg: Registry, text: string)
    requires reg.Valid()
    ensures ApplyQueue(reg, [text]) == ApplyResponse(reg, text)
  {
    assert [text][1..] == [];
  }

  /** A left-to-right loop over `segments`: the segments from `i` on are segment `i`, then the rest. */
  lemma SegmentStep(reg: Registry, segments: seq<string>, i: nat)
    requires reg.Valid() && i < |segments|
    ensures ApplySegments(reg, segments[i..]) ==
      var o := ApplySegment(reg, segments[i]);
      if o.alive then ApplySegments(o.reg, segments[i + 1..]) else o
  {
    assert segments[i..][1..] == segments[i + 1..];
  }

  /** The same for a FIFO loop over `queue`. */
  lemma QueueStep(reg: Registry, queue: seq<string>, i: nat)
    requires reg.Valid() && i < |queue|
    ensures ApplyQueue(reg, queue[i..]) ==
      var o := ApplyResponse(reg, queue[i]);
      if o.alive then ApplyQueue(o.reg, queue[i + 1..]) else o
  {
    assert queue[i..][1..] == queue[i + 1..];
  }

  /** Once the consumer has died, nothing queued afterwards is applied. */
  lemma {:induction false} DeadConsumerAppliesNothing(reg: Registry, xs: seq<string>, ys: seq<string>)
    requires reg.Valid() && !ApplyQueue(reg, xs).alive
    ensures ApplyQueue(reg, xs + ys) == ApplyQueue(reg, xs)
  {
    ApplyQueueAppend(reg, xs, ys);
  }

  // ---------------------------------------------------------------------------
  // Parsing what the codec builds

  /** The segment of a built command frame: applied when no field is negative, skipped otherwise. */
  lemma ApplyCommandBody(reg: Registry, who: Int32, what: Int32, where: Int32)
    requires reg.Valid()
    ensures ApplySegment(reg, CommandBody(who, what, where)) ==
            Outcome(if who >= 0 && what >= 0 && where >= 0 then Route(reg, who, where, what) else reg, true)
  {
    MatchCommandBody(who, what, where);
    if who >= 0 && what >= 0 && where >= 0 {
      var g := Groups(IntToString(who), IntToString(what), IntToString(where));
      ToIntOfIntToString(who);
      ToIntOfIntToString(what);
      ToIntOfIntToString(where);
      ApplyMatchedSegment(reg, CommandBody(who, what, where), g, who, what, where);
    }
  }

  /** A segment the pattern accepts with groups that all fit an `Int`. */
  lemma ApplyMatchedSegment(reg: Registry, segment: string, g: Groups, who: Int32, what: Int32, where: Int32)
    requires reg.Valid()
    requires MatchFrame(segment) == Some(g)
    requires IsDigitRun(g.who) && IsDigitRun(g.what) && IsDigitRun(g.where)
    requires ToInt(g.who) == Some(who) && ToInt(g.what) == Some(what) && ToInt(g.where) == Some(where)
    ensures ApplySegment(reg, segment) == Outcome(Route(reg, who, where, what), true)
  {
  }

  /** A one-segment list that the pattern rejects changes nothing. */
  lemma ApplyUnmatchedSingle(reg: Registry, segment: string)
    requires reg.Valid() && MatchFrame(segment) == None
    ensures ApplySegments(reg, [segment]) == Outcome(reg, true)
  {
    assert [segment][1..] == [];
    assert ApplySegment(reg, segment) == Outcome(reg, true);
  }

  /** The empty segment never matches, so a trailing terminator changes nothing. */
  lemma ApplyEmptyResponse(reg: Registry)
    requires reg.Valid()
    ensures ApplyResponse(reg, "") == Outcome(reg, true)
  {
    assert Split("") == [""];
    ApplyUnmatchedSingle(reg, "");
  }

  /**
    Round trip: parsing a built light or shutter command sets the device of
    that kind with id `where` to `what` (see `RouteEffect`), and nothing else.
   */
  lemma RoundTrip(reg: Registry, who: Int32, what: Int32, where: Int32)
    requires reg.Valid()
    requires who == 1 || who == 2
    requires what >= 0 && where >= 0
    ensures ApplyResponse(reg, BuildCommand(who, what, where)) == Outcome(Route(reg, who, where, what), true)
  {
    SplitCommand(who, what, where, "");
    assert BuildCommand(who, what, where) + "" == BuildCommand(who, what, where);
    ApplyCommandBody(reg, who, what, where);
    assert Split("") == [""];
    var o := ApplySegment(reg, CommandBody(who, what, where));
    ApplyUnmatchedSingle(o.reg, "");
  }

  /** A command as the view model builds it (`buildCommand(who, what, where)`). */
  datatype Command = Command(who: Int32, what: Int32, where: Int32)

  /** Several command frames back to back, as the controller may send them in one read. */
  function EncodeAll(cmds: seq<Command>): (text: string)
  {
    if cmds == [] then "" else BuildCommand(cmds[0].who, cmds[0].what, cmds[0].where) + EncodeAll(cmds[1..])
  }

  /** The commands routed left to right; one with a negative field does not match and is skipped. */
  function RouteAll(reg: Registry, cmds: seq<Command>): (r: Registry)
    requires reg.Valid()
    ensures r.Valid() && SameCatalog(reg, r)
    decreases |cmds|
  {
    if cmds == [] then reg
    else
      var c := cmds[0];
      var next := if c.who >= 0 && c.what >= 0 && c.where >= 0 then Route(reg, c.who, c.where, c.what) else reg;
      RouteAll(next, cmds[1..])
  }

  /**
    Matching segments are applied left to right: parsing a run of command
    frames followed by any text routes every frame in order and then parses
    the rest.
   */
  lemma {:induction false} ParseEncodedThenRest(reg: Registry, cmds: seq<Command>, rest: string)
    requires reg.Valid()
    ensures ApplyResponse(reg, EncodeAll(cmds) + rest) == ApplyResponse(RouteAll(reg, cmds), rest)
    decreases |cmds|
  {
    if cmds == [] {
      assert EncodeAll(cmds) + rest == rest;
    } else {
      var c := cmds[0];
      var tail := EncodeAll(cmds[1..]) + rest;
      assert EncodeAll(cmds) + rest == BuildCommand(c.who, c.what, c.where) + tail;
      SplitCommand(c.who, c.what, c.where, tail);
      ApplyCommandBody(reg, c.who, c.what, c.where);
      var o := ApplySegment(reg, CommandBody(c.who, c.what, c.where));
      assert ApplyResponse(reg, EncodeAll(cmds) + rest) == ApplySegments(o.reg, Split(tail));
      ParseEncodedThenRest(o.reg, cmds[1..], rest);
    }
  }

  /** Hence a text made only of command frames always leaves the consumer alive. */
  lemma ParseEncoded(reg: Registry, cmds: seq<Command>)
    requires reg.Valid()
    ensures ApplyResponse(reg, EncodeAll(cmds)) == Outcome(RouteAll(reg, cmds), true)
  {
    ParseEncodedThenRest(reg, cmds, "");
    assert EncodeAll(cmds) + "" == EncodeAll(cmds);
    ApplyEmptyResponse(RouteAll(reg, cmds));
  }

  /** The example of two frames in one read: light 31 is switched on, then shutter 82 is lowered. */
  lemma TwoFramesInOrder(reg: Registry)
    requires reg.Valid()
    ensures ApplyResponse(reg, "*1*1*31##*2*0*82##") == Outcome(Route(Route(reg, 1, 31, 1), 2, 82, 0), true)
  {
    var cmds := [Command(1, 1, 31), Command(2, 0, 82)];
    EncodeTwoFrames();
    ParseEncoded(reg, cmds);
    var r1 := Route(reg, 1, 31, 1);
    assert RouteAll(reg, cmds) == RouteAll(r1, cmds[1..]);
    assert RouteAll(r1, cmds[1..]) == RouteAll(Route(r1, 2, 82, 0), []);
  }

  lemma EncodeTwoFrames()
    ensures EncodeAll([Command(1, 1, 31), Command(2, 0, 82)]) == "*1*1*31##*2*0*82##"
  {
    var cmds := [Command(1, 1, 31), Command(2, 0, 82)];
    SwitchOnFrame();
    LowerFrame();
    assert cmds[1..] == [Command(2, 0, 82)];
    assert cmds[1..][1..] == [];
    assert EncodeAll(cmds[1..]) == "*2*0*82##" + "";
  }

  lemma SwitchOnFrame()
    ensures BuildCommand(1, 1, 31) == "*1*1*31##"
  {
    assert Digits(1) == "1" && Digits(3) == "3";
    assert Digits(31) == Digits(3) + "1";
  }

  lemma LowerFrame()
    ensures BuildCommand(2, 0, 82) == "*2*0*82##"
  {
    assert Digits(2) == "2" && Digits(0) == "0" && Digits(8) == "8";
    assert Digits(82) == Digits(8) + "2";
  }

  // ---------------------------------------------------------------------------
  // What is ignored

  /** A text without `#` whose first character is not `*` is one segment that never matches. */
  lemma ApplyUnframedText(reg: Registry, text: string)
    requires reg.Valid()
    requires '#' !in text && (text == [] || text[0] != '*')
    ensures ApplyResponse(reg, text) == Outcome(reg, true)
  {
    SplitWithoutHash(text);
    ApplyUnmatchedSingle(reg, text);
  }

  /** The empty text, a lone terminator and "garbage" change nothing. */
  lemma JunkIgnored(reg: Registry)
    requires reg.Valid()
    ensures ApplyResponse(reg, "") == Outcome(reg, true)
    ensures ApplyResponse(reg, "##") == Outcome(reg, true)
    ensures ApplyResponse(reg, "garbage") == Outcome(reg, true)
  {
    ApplyEmptyResponse(reg);
    SplitAfterPlainSegment("", "");
    assert "" + Terminator + "" == "##";
    ApplyUnframedText(reg, "garbage");
  }

  /**
    A read buffer holding command frames and then NUL padding: the frames are
    applied in order and the padding segment is skipped.
   */
  lemma ParsePaddedFrames(reg: Registry, cmds: seq<Command>, padding: string)
    requires reg.Valid() && IsNulPadding(padding)
    ensures ApplyResponse(reg, EncodeAll(cmds) + padding) == Outcome(RouteAll(reg, cmds), true)
  {
    ParseEncodedThenRest(reg, cmds, padding);
    assert '#' !in padding;
    ApplyUnframedText(RouteAll(reg, cmds), padding);
  }

  /** A `#`-free segment with the frame shape, then the terminator: that segment first, then the rest. */
  lemma FrameThenRest(reg: Registry, who: string, what: string, where: string, rest: string)
    requires reg.Valid() && IsDigitRun(who) && IsDigitRun(what) && IsDigitRun(where)
    ensures var seg := "*" + who + "*" + what + "*" + where;
      MatchFrame(seg) == Some(Groups(who, what, where)) &&
      ApplyResponse(reg, seg + Terminator + rest) ==
        var o := ApplySegment(reg, seg);
        if o.alive then ApplyResponse(o.reg, rest) else o
  {
    var seg := "*" + who + "*" + what + "*" + where;
    MatchFrameComplete(seg, Groups(who, what, where));
    DigitRunHasNoHash(who);
    DigitRunHasNoHash(what);
    DigitRunHasNoHash(where);
    SplitAfterPlainSegment(seg, rest);
  }

  /** A frame whose `who` is neither 1 nor 2 is skipped, even when its other fields overflow an `Int`. */
  lemma OtherKindIgnored(reg: Registry, who: string, what: string, where: string, rest: string)
    requires reg.Valid() && IsDigitRun(who) && IsDigitRun(what) && IsDigitRun(where)
    requires DigitsValue(who) < IntLimit && DigitsValue(who) != 1 && DigitsValue(who) != 2
    ensures ApplyResponse(reg, "*" + who + "*" + what + "*" + where + Terminator + rest) ==
            ApplyResponse(reg, rest)
  {
    FrameThenRest(reg, who, what, where, rest);
  }

  /**
    A frame whose `who` does not fit an `Int`, or a light or shutter frame
    whose `what` or `where` does not, makes `toInt` throw: the consumer stops
    with the registry unchanged, and the frames after it in the same text are
    never applied.
   */
  lemma OverflowStopsParsing(reg: Registry, who: string, what: string, where: string, rest: string)
    requires reg.Valid() && IsDigitRun(who) && IsDigitRun(what) && IsDigitRun(where)
    requires DigitsValue(who) >= IntLimit ||
             ((DigitsValue(who) == 1 || DigitsValue(who) == 2) &&
              (DigitsValue(what) >= IntLimit || DigitsValue(where) >= IntLimit))
    ensures ApplyResponse(reg, "*" + who + "*" + what + "*" + where + Terminator + rest) == Outcome(reg, false)
  {
    FrameThenRest(reg, who, what, where, rest);
  }

  /** A frame `*#p*q##` with `#`-free `p` and `q` never matches, so parsing it changes nothing. */
  lemma StatusFrameInert(reg: Registry, p: string, q: string)
    requires reg.Valid() && '#' !in p && '#' !in q
    ensures ApplyResponse(reg, "*#" + p + "*" + q + Terminator) == Outcome(reg, true)
  {
    SplitStatusShape(p, q);
    var seg := "*#" + p + "*" + q;
    assert seg[1] == '#';
    assert MatchFrame(seg) == None;
    assert ApplySegments(reg, [""]) == Outcome(reg, true);
  }

  /** Status queries are inert: their `*#` prefix never matches, whatever the fields. */
  lemma StatusQueryInert(reg: Registry, who: Int32, where: Int32)
    requires reg.Valid()
    ensures ApplyResponse(reg, BuildStatusCommand(who, where)) == Outcome(reg, true)
  {
    StatusFrameInert(reg, IntToString(who), IntToString(where));
  }

  /** A one-field status reply `*#*q##` changes nothing. */
  lemma StatusReplyInert(reg: Registry, q: string)
    requires reg.Valid() && '#' !in q
    ensures ApplyResponse(reg, "*#*" + q + Terminator) == Outcome(reg, true)
  {
    StatusFrameInert(reg, "", q);
    assert "*#" + "" + "*" + q + Terminator == "*#*" + q + Terminator;
  }

  /** A one-field status reply at the front of a text is skipped; the rest is parsed on its own. */
  lemma StatusReplyThenRest(reg: Registry, q: string, rest: string)
    requires reg.Valid() && '#' !in q
    ensures ApplyResponse(reg, "*#*" + q + Terminator + rest) == ApplyResponse(reg, rest)
  {
    var seg := "*#*" + q;
    assert NoTerminator(seg) by {
      forall i | 0 <= i < |seg|
        ensures !HasTerminatorAt(seg, i)
      {
        if i >= 3 { assert seg[i] == q[i - 3]; }
      }
    }
    assert !EndsInHash(seg) by {
      if |q| > 0 { assert seg[|seg| - 1] == q[|q| - 1]; }
    }
    SplitAfterSegment(seg, rest);
    assert seg[1] == '#';
    assert MatchFrame(seg) == None;
    assert ([seg] + Split(rest))[1..] == Split(rest);
  }

  /** A one-field status reply in a NUL-padded read buffer changes nothing. */
  lemma PaddedStatusReplyInert(reg: Registry, q: string, padding: string)
    requires reg.Valid() && '#' !in q && IsNulPadding(padding)
    ensures ApplyResponse(reg, "*#*" + q + Terminator + padding) == Outcome(reg, true)
  {
    StatusReplyThenRest(reg, q, padding);
    assert '#' !in padding;
    ApplyUnframedText(reg, padding);
  }

  /** An acknowledgement at the front of a read buffer is skipped, and what follows it is parsed. */
  lemma AckThenRest(reg: Registry, rest: string)
    requires reg.Valid()
    ensures ApplyResponse(reg, Ack + rest) == ApplyResponse(reg, rest)
  {
    assert Ack + rest == "*#*" + "1" + Terminator + rest;
    StatusReplyThenRest(reg, "1", rest);
  }

  /** The controller's acknowledgement `*#*1##` and refusal `*#*0##` change nothing, bare or NUL-padded. */
  lemma AckIgnored(reg: Registry, padding: string)
    requires reg.Valid() && IsNulPadding(padding)
    ensures ApplyResponse(reg, Ack) == Outcome(reg, true)
    ensures ApplyResponse(reg, Nack) == Outcome(reg, true)
    ensures ApplyResponse(reg, Ack + padding) == Outcome(reg, true)
    ensures ApplyResponse(reg, Nack + padding) == Outcome(reg, true)
  {
    assert Ack == "*#*" + "1" + Terminator;
    assert Nack == "*#*" + "0" + Terminator;
    StatusReplyInert(reg, "1");
    StatusReplyInert(reg, "0");
    PaddedStatusReplyInert(reg, "1", padding);
    PaddedStatusReplyInert(reg, "0", padding);
  }



  /** A text without `#` is one segment. */
  lemma UnterminatedResponse(reg: Registry, text: string)
    requires reg.Valid() && '#' !in text
    ensures ApplyResponse(reg, text) == ApplySegment(reg, text)
  {
    SplitWithoutHash(text);
    ApplySegmentsSingle(reg, text);
  }

  /** A queue of two texts: the first, then the second if the consumer survived. */
  lemma QueuePair(reg: Registry, first: string, second: string)
    requires reg.Valid()
    ensures ApplyQueue(reg, [first, second]) ==
      var o := ApplyResponse(reg, first);
      if o.alive then ApplyResponse(o.reg, second) else o
  {
    assert [first, second][1..] == [second];
    ApplyQueueSingle(ApplyResponse(reg, first).reg, second);
  }

  /**
    The tail of a frame cut in two by a read boundary, a bare digit run and the
    terminator in a NUL-padded buffer, changes nothing: the run does not start
    with `*`.
   */
  lemma DigitTailInert(reg: Registry, tail: string, padding: string)
    requires reg.Valid() && IsDigitRun(tail) && IsNulPadding(padding)
    ensures ApplyResponse(reg, tail + Terminator + padding) == Outcome(reg, true)
  {
    DigitRunHasNoHash(tail);
    SplitAfterPlainSegment(tail, padding);
    assert MatchFrame(tail) == None;
    assert ([tail] + Split(padding))[1..] == Split(padding);
    assert '#' !in padding;
    ApplyUnframedText(reg, padding);
  }

  /**
    Each queued text is parsed on its own: a frame whose read boundary falls
    right after its third `*` is lost, both halves being skipped, padded or not.
   */
  lemma FrameSplitAcrossReadsIsLost(reg: Registry, who: string, what: string, where: string,
                                    headPadding: string, tailPadding: string)
    requires reg.Valid() && IsDigitRun(who) && IsDigitRun(what) && IsDigitRun(where)
    requires IsNulPadding(headPadding) && IsNulPadding(tailPadding)
    ensures ApplyQueue(reg, ["*" + who + "*" + what + "*" + headPadding, where + Terminator + tailPadding]) ==
            Outcome(reg, true)
  {
    var head := "*" + who + "*" + what + "*" + headPadding;
    DigitRunHasNoHash(who);
    DigitRunHasNoHash(what);
    assert '#' !in headPadding;
    assert '#' !in head;
    assert head[|head| - 1] == if headPadding == [] then '*' else 0 as char;
    UnmatchedIfLastNotDigit(head);
    UnterminatedResponse(reg, head);
    DigitTailInert(reg, where, tailPadding);
    QueuePair(reg, head, where + Terminator + tailPadding);
  }

  /**
    A read boundary inside the last field of a frame that ends a full buffer
    (command frames before it, no padding after it) is worse: the head matches,
    so the light or shutter is set from the truncated id `where1`, after the
    frames before it; the tail is skipped.
   */
  lemma FrameCutInsideLastField(reg: Registry, cmds: seq<Command>, who: string, what: string,
                                where1: string, where2: string, padding: string)
    requires reg.Valid() && IsDigitRun(who) && IsDigitRun(what) && IsDigitRun(where1) && IsDigitRun(where2)
    requires (DigitsValue(who) == 1 || DigitsValue(who) == 2) &&
             DigitsValue(what) < IntLimit && DigitsValue(where1) < IntLimit
    requires IsNulPadding(padding)
    ensures ApplyQueue(reg, [EncodeAll(cmds) + ("*" + who + "*" + what + "*" + where1), where2 + Terminator + padding]) ==
            Outcome(Route(RouteAll(reg, cmds), DigitsValue(who), DigitsValue(where1), DigitsValue(what)), true)
  {
    var head := "*" + who + "*" + what + "*" + where1;
    ParseEncodedThenRest(reg, cmds, head);
    var before := RouteAll(reg, cmds);
    var g := Groups(who, what, where1);
    FrameBodyHasNoHash(who, what, where1);
    UnterminatedResponse(before, head);
    MatchFrameComplete(head, g);
    ApplyMatchedSegment(before, head, g, DigitsValue(who), DigitsValue(what), DigitsValue(where1));
    var r := Route(before, DigitsValue(who), DigitsValue(where1), DigitsValue(what));
    DigitTailInert(r, where2, padding);
    QueuePair(reg, EncodeAll(cmds) + head, where2 + Terminator + padding);
  }

  /**
    When the read was short, the head of the cut frame is followed by NUL
    padding in the same buffer, so it fails the pattern: the frames before it
    are applied and the cut frame is lost.
   */
  lemma FrameCutHeadPaddedIsLost(reg: Registry, cmds: seq<Command>, who: string, what: string,
                                 where1: string, where2: string, headPadding: string, tailPadding: string)
    requires reg.Valid() && IsDigitRun(who) && IsDigitRun(what) && IsDigitRun(where1) && IsDigitRun(where2)
    requires IsNulPadding(headPadding) && |headPadding| > 0 && IsNulPadding(tailPadding)
    ensures ApplyQueue(reg, [EncodeAll(cmds) + ("*" + who + "*" + what + "*" + where1 + headPadding),
                             where2 + Terminator + tailPadding]) ==
            Outcome(RouteAll(reg, cmds), true)
  {
    var head := "*" + who + "*" + what + "*" + where1 + headPadding;
    ParseEncodedThenRest(reg, cmds, head);
    var before := RouteAll(reg, cmds);
    FrameBodyHasNoHash(who, what, where1);
    assert '#' !in headPadding;
    assert '#' !in head;
    assert head[|head| - 1] == 0 as char;
    UnmatchedIfLastNotDigit(head);
    UnterminatedResponse(before, head);
    DigitTailInert(before, where2, tailPadding);
    QueuePair(reg, EncodeAll(cmds) + head, where2 + Terminator + tailPadding);
  }

  /** The decimal texts of the dim level and of lights 35 and 36. */
  lemma DimDigits()
    ensures Digits(10) == "10" && Digits(35) == "35" && Digits(36) == "36"
  {
    assert Digits(1) == "1" && Digits(3) == "3";
    assert Digits(10) == Digits(1) + "0";
    assert Digits(35) == Digits(3) + "5" && Digits(36) == Digits(3) + "6";
  }

  /** The dim commands of `LightThirtyOneReadAsThree`, as text. */
  lemma DimFrames()
    ensures BuildCommand(1, 10, 35) == "*1*10*35##" && BuildCommand(1, 10, 36) == "*1*10*36##"
  {
    DimDigits();
    assert Digits(1) == "1";
  }

  /**
    Two full buffers: the acknowledgement, lights 35 and 36 dimmed to 10, and
    the switch-on frame for light 31 cut after `*1*1*3`; then `1##` and
    padding. Light 3 is switched on instead of light 31.
   */
  lemma LightThirtyOneReadAsThree(reg: Registry, first: string, second: string)
    requires reg.Valid()
    requires first == Ack + "*1*10*35##*1*10*36##" + "*1*1*3" && second == "1##" + Nuls(29)
    ensures |first| == BufferSize && |second| == BufferSize
    ensures ApplyQueue(reg, [first, second]) == Outcome(Route(Route(Route(reg, 1, 35, 10), 1, 36, 10), 1, 3, 1), true)
  {
    var cmds := [Command(1, 10, 35), Command(1, 10, 36)];
    var one, three := "1", "3";
    CutLayout(one, three);
    DimEncoding(cmds);
    var head := "*" + one + "*" + one + "*" + three;
    var frames := EncodeAll(cmds) + head;
    var tail := Nuls(29);
    DimBufferLayout(first, second, EncodeAll(cmds), head, one + Terminator, tail);
    FrameCutInsideLastField(reg, cmds, one, one, three, one, tail);
    AckThenRest(reg, frames);
    QueuePair(reg, Ack + frames, one + Terminator + tail);
    QueuePair(reg, frames, one + Terminator + tail);
    DimRoutes(reg, cmds);
  }

  /** Where the pieces of the two buffers of `LightThirtyOneReadAsThree` sit. */
  lemma DimBufferLayout(first: string, second: string, frames: string, head: string, rest: string, tail: string)
    requires first == Ack + "*1*10*35##*1*10*36##" + "*1*1*3" && second == "1##" + Nuls(29)
    requires frames == "*1*10*35##*1*10*36##" && head == "*1*1*3" && rest == "1##" && tail == Nuls(29)
    ensures first == Ack + (frames + head) && second == rest + tail
    ensures |first| == BufferSize && |second| == BufferSize
  {
  }

  /** The text of the two dim commands. */
  lemma DimEncoding(cmds: seq<Command>)
    requires cmds == [Command(1, 10, 35), Command(1, 10, 36)]
    ensures EncodeAll(cmds) == "*1*10*35##*1*10*36##"
  {
    DimFrames();
    assert cmds[1..] == [Command(1, 10, 36)] && cmds[1..][1..] == [];
    assert EncodeAll(cmds[1..]) == "*1*10*36##" + "";
  }

  /** Routing the two dim commands. */
  lemma DimRoutes(reg: Registry, cmds: seq<Command>)
    requires reg.Valid() && cmds == [Command(1, 10, 35), Command(1, 10, 36)]
    ensures RouteAll(reg, cmds) == Route(Route(reg, 1, 35, 10), 1, 36, 10)
  {
    var r1 := Route(reg, 1, 35, 10);
    assert cmds[1..] == [Command(1, 10, 36)] && cmds[1..][1..] == [];
    assert RouteAll(reg, cmds) == RouteAll(r1, cmds[1..]);
    assert RouteAll(r1, cmds[1..]) == RouteAll(Route(r1, 1, 36, 10), []);
  }

  /**
    The same frame after a short read: `*1*1*3` padded to a full buffer, then
    `1##` padded. Nothing changes; light 31 stays as it was.
   */
  lemma ShortReadOfThirtyOneIsLost(reg: Registry, first: string, second: string)
    requires reg.Valid()
    requires first == "*1*1*3" + Nuls(26) && second == "1##" + Nuls(29)
    ensures |first| == BufferSize && |second| == BufferSize
    ensures ApplyQueue(reg, [first, second]) == Outcome(reg, true)
  {
    var one, three := "1", "3";
    CutLayout(one, three);
    var cmds: seq<Command> := [];
    assert EncodeAll(cmds) == "";
    var pad := Nuls(26);
    FrameCutHeadPaddedIsLost(reg, cmds, one, one, three, one, pad, Nuls(29));
    assert first == EncodeAll(cmds) + ("*" + one + "*" + one + "*" + three + pad);
    assert RouteAll(reg, cmds) == reg;
  }

  /** The digit runs and the texts of the cut switch-on frame. */
  lemma CutLayout(one: string, three: string)
    requires one == "1" && three == "3"
    ensures IsDigitRun(one) && IsDigitRun(three) && DigitsValue(one) == 1 && DigitsValue(three) == 3
    ensures "*" + one + "*" + one + "*" + three == "*1*1*3" && one + Terminator == "1##"
  {
  }
}
