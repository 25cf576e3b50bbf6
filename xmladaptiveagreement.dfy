/**
 * XmlAdaptiveModel's two halves agree where the decoder does not hand over
 * to the element models: the symbols manageEvent appends for the prolog
 * (declarations, default data, comments, processing instructions) make
 * receiveData emit those events' SAX calls, and a character run comes back
 * as its data.  Comments and processing instructions come back only in the
 * corrected decoder: as written a comment is read past its end and the
 * decoder stays in the Default state after it.
 *
 * Strings are XML text shorter than the buffer.  The buffer's bytes beyond
 * those in use are left as they are: a decoder is described by its fields
 * without the buffer (its Frame) and by the bytes in use.
 */
module XmlAdaptiveAgreement {

  import opened Wrappers
  import Fibonacci
  import opened XmlModelBase
  import opened XmlAdaptiveEncoding
  import opened XmlAdaptiveDecoding
  import Simple = XmlSimpleEncoding
  import RT = XmlSimpleRoundTrip

  // ---------------------------------------------------------------------
  // Describing a decoder without its stale bytes
  // ---------------------------------------------------------------------

  /** A decoder with its whole buffer allocated and nothing in use. */
  predicate Fit(d: AdaptiveDecoder)
  {
    |d.raw| == BufferSize && d.length == 0
  }

  /** Everything but the buffer. */
  function Frame(d: AdaptiveDecoder): AdaptiveDecoder
  {
    d.(raw := [], length := 0)
  }

  /** The buffer holds t. */
  predicate Holding(d: AdaptiveDecoder, t: Text)
  {
    |d.raw| == BufferSize && d.length == |t| <= |d.raw| && d.raw[..d.length] == t
  }

  /** Delivering `bytes` to d leaves a decoder with an empty buffer and the fields f. */
  predicate Reaches(fixed: bool, d: AdaptiveDecoder, bytes: seq<Byte>, f: AdaptiveDecoder)
  {
    var r := DeliverOf(fixed, d, bytes);
    r.Received? && Fit(r.d) && Frame(r.d) == f
  }

  /** Delivering a + b goes on from where a left the decoder. */
  lemma Then(fixed: bool, d: AdaptiveDecoder, a: seq<Byte>, b: seq<Byte>, e: AdaptiveDecoder)
    requires DeliverOf(fixed, d, a) == Received(e)
    ensures DeliverOf(fixed, d, a + b) == DeliverOf(fixed, e, b)
  {
    DeliverAppend(fixed, Received(d), a, b);
  }

  /** A lemma about a + b from one about a and one about b. */
  lemma ReachesThen(fixed: bool, d: AdaptiveDecoder, a: seq<Byte>, b: seq<Byte>, f: AdaptiveDecoder)
    requires DeliverOf(fixed, d, a).Received? && Reaches(fixed, DeliverOf(fixed, d, a).d, b, f)
    ensures Reaches(fixed, d, a + b, f)
  {
    Then(fixed, d, a, b, DeliverOf(fixed, d, a).d);
  }

  /** A single byte whose call leaves e. */
  lemma ByteThen(fixed: bool, d: AdaptiveDecoder, c: Byte, rest: seq<Byte>, e: AdaptiveDecoder, f: AdaptiveDecoder)
    requires Feed(fixed, d, c) == Received(e) && Reaches(fixed, e, rest, f)
    ensures Reaches(fixed, d, [c] + rest, f)
  {
    DeliverByte(fixed, d, c, rest, e);
  }

  lemma Delivered0(fixed: bool, d: AdaptiveDecoder)
    ensures DeliverOf(fixed, d, []) == Received(d)
  {
  }

  /** Resetting the buffer leaves a fit decoder with its fields. */
  lemma ResetFit(d: AdaptiveDecoder)
    requires |d.raw| == BufferSize
    ensures Fit(ResetBuffer(d)) && Frame(ResetBuffer(d)) == Frame(d)
  {
  }

  // ---------------------------------------------------------------------
  // Zero-terminated strings
  // ---------------------------------------------------------------------

  /** Text with no zero byte: what a C string can hold. */
  predicate NoZero(t: Text)
  {
    forall k :: 0 <= k < |t| ==> t[k] != 0
  }

  /** A C string read at i ends at the first zero, at n. */
  lemma {:induction false} CStringAt(s: seq<Byte>, i: nat, n: nat)
    requires i <= n < |s| && s[n] == 0 && NoZero(s[i..n])
    ensures CString(s, i) == Some(s[i..n])
    decreases n - i
  {
    if i < n {
      assert s[i] == s[i..n][0];
      assert s[i + 1..n] == s[i..n][1..];
      CStringAt(s, i + 1, n);
      assert s[i..n] == [s[i]] + s[i + 1..n];
    }
  }

  /** Terminating the buffer that holds a short text and reading it back gives the text. */
  lemma TerminatedText(d: AdaptiveDecoder, t: Text)
    requires Holding(d, t) && RT.Short(t)
    ensures Terminate(d).Some? && CString(Terminate(d).value, 0) == Some(t)
  {
    var s := d.raw[d.length := 0];
    assert s[0..|t|] == t;
    CStringAt(s, 0, |t|);
  }

  /** The string EndOfBlock makes of a buffer holding a short text: null when empty. */
  lemma PlainItemOf(d: AdaptiveDecoder, t: Text)
    requires Holding(d, t) && RT.Short(t)
    ensures PlainItem(d) == Some(RT.NonNull(Some(t)))
    ensures MarkedItem(d) == Some(RT.NonNull(Some(t)))
  {
    if t != [] {
      TerminatedText(d, t);
      assert d.raw[0] == t[0];
    }
  }

  /** A buffer holding EmptyString alone makes the empty string, where strings may be empty. */
  lemma EmptyItem(d: AdaptiveDecoder)
    requires Holding(d, [EmptyString])
    ensures MarkedItem(d) == Some(Some([]))
  {
    assert d.raw[0] == d.raw[..d.length][0];
  }

  // ---------------------------------------------------------------------
  // Data bytes
  // ---------------------------------------------------------------------

  /**
   * The states in which a data byte goes to the buffer (the XML
   * declaration is read in the prolog's KnownElement state), with no
   * declaration complete and no attribute value read outside Characters.
   */
  predicate Collecting(d: AdaptiveDecoder)
  {
    && (d.inAttrValue ==> d.state == CharactersState)
    && ((d.state == DoctypeState && |d.queue| != 3) || d.state == NewElementState
        || (d.state == KnownElementState && d.inProlog) || d.state == DefaultState
        || (d.state == EntityDeclState && |d.queue| != 5) || d.state == NotationDeclState
        || d.state == CharactersState)
  }

  /** The decoder after a byte goes to the buffer; a new name ends the prolog. */
  function Appended(d: AdaptiveDecoder, c: Byte): (r: AdaptiveDecoder)
    requires d.length < |d.raw|
    ensures r.length == d.length + 1 && |r.raw| == |d.raw|
  {
    d.(raw := d.raw[d.length := c], length := d.length + 1, inProlog := d.inProlog && d.state != NewElementState)
  }

  /** A data byte short of filling the buffer is appended to it. */
  lemma CollectByte(fixed: bool, d: AdaptiveDecoder, c: Byte)
    requires Collecting(d) && IsXmlByte(c) && |d.raw| == BufferSize && d.length + 1 < BufferSize
    ensures Feed(fixed, d, c) == Received(Appended(d, c))
  {
    var p := d.(raw := d.raw[d.length := c], length := d.length + 1);
    assert PutByte(d, c) == Some(p);
    if ReadingCode(fixed, d) {
      assert XmlDeclStep(d, c) == Running(p);
    } else {
      InterceptData(d, c);
      StoreByte(fixed, d, c);
    }
  }

  /** The first switch hands a data byte to the state. */
  lemma InterceptData(d: AdaptiveDecoder, c: Byte)
    requires IsXmlByte(c) && (d.inAttrValue ==> d.state == CharactersState)
    ensures Intercept(d, c) == Passed(d)
  {
  }

  /** The second switch stores a data byte. */
  lemma StoreByte(fixed: bool, d: AdaptiveDecoder, c: Byte)
    requires Collecting(d) && !ReadingCode(fixed, d) && IsXmlByte(c) && |d.raw| == BufferSize && d.length + 1 < BufferSize
    ensures StateStep(fixed, d, c) == Running(Appended(d, c))
  {
    if d.state == NewElementState {
      NameStore(d, c);
    } else if d.state == DefaultState || d.state == CharactersState {
      RunStore(fixed, d, c);
    } else {
      DeclarationStore(d, c);
    }
  }

  lemma NameStore(d: AdaptiveDecoder, c: Byte)
    requires d.state == NewElementState && IsXmlByte(c) && d.length < |d.raw|
    ensures NewElementStep(d.(inProlog := false), c) == Running(Appended(d, c))
  {
    var n := d.(inProlog := false);
    var p := n.(raw := n.raw[n.length := c], length := n.length + 1);
    assert p == Appended(d, c);
    assert PutByte(n, c) == Some(p);
  }

  lemma RunStore(fixed: bool, d: AdaptiveDecoder, c: Byte)
    requires (d.state == DefaultState || d.state == CharactersState) && IsXmlByte(c)
    requires |d.raw| == BufferSize && d.length + 1 < BufferSize
    ensures DefaultStep(fixed, d, c) == Running(Appended(d, c))
    ensures CharacterStep(fixed, d, c) == Running(Appended(d, c))
  {
    var p := d.(raw := d.raw[d.length := c], length := d.length + 1);
    assert p == Appended(d, c);
    assert PutByte(d, c) == Some(p) && p.length != BufferSize;
  }

  lemma DeclarationStore(d: AdaptiveDecoder, c: Byte)
    requires c != EndOfBlock && d.length < |d.raw| && d.state != NewElementState
    ensures |d.queue| != 3 ==> DoctypeStep(d, c) == Running(Appended(d, c))
    ensures |d.queue| != 5 ==> EntityDeclStep(d, c) == Running(Appended(d, c))
    ensures NotationDeclStep(d, c) == Running(Appended(d, c))
  {
  }

  /** The decoder after text goes to the buffer. */
  function Filled(d: AdaptiveDecoder, t: Text): (r: AdaptiveDecoder)
    requires d.length + |t| <= |d.raw|
    ensures r.length == d.length + |t| && |r.raw| == |d.raw|
  {
    d.(raw := d.raw[..d.length] + t + d.raw[d.length + |t|..], length := d.length + |t|,
       inProlog := d.inProlog && (t == [] || d.state != NewElementState))
  }

  /** Text fills the buffer. */
  lemma {:induction false} CollectText(fixed: bool, d: AdaptiveDecoder, t: Text)
    requires Collecting(d) && XmlText(t) && |d.raw| == BufferSize && d.length + |t| < BufferSize
    ensures DeliverOf(fixed, d, t) == Received(Filled(d, t))
    decreases |t|
  {
    if t == [] {
      assert d.raw[..d.length] + t + d.raw[d.length..] == d.raw;
    } else {
      CollectByte(fixed, d, t[0]);
      var d1 := Appended(d, t[0]);
      CollectText(fixed, d1, t[1..]);
      FilledStep(d, t);
      assert t == [t[0]] + t[1..];
      DeliverByte(fixed, d, t[0], t[1..], d1);
    }
  }

  lemma FilledStep(d: AdaptiveDecoder, t: Text)
    requires t != [] && d.length + |t| <= |d.raw|
    ensures Filled(Appended(d, t[0]), t[1..]) == Filled(d, t)
  {
    var d1 := Appended(d, t[0]);
    assert d1.raw[..d1.length] + t[1..] + d1.raw[d1.length + |t[1..]|..]
        == d.raw[..d.length] + t + d.raw[d.length + |t|..];
  }

  /** After text, the buffer holds what it held and the text. */
  lemma FilledHolds(d: AdaptiveDecoder, u: Text, t: Text)
    requires Holding(d, u) && d.length + |t| <= |d.raw|
    ensures Holding(Filled(d, t), u + t)
    ensures Frame(Filled(d, t)) == Frame(d).(inProlog := d.inProlog && (t == [] || d.state != NewElementState))
  {
    assert Filled(d, t).raw[..d.length + |t|] == d.raw[..d.length] + t;
  }

  // ---------------------------------------------------------------------
  // Strings of a declaration
  // ---------------------------------------------------------------------

  /** A call that leaves a decoder with an empty buffer and the fields f. */
  predicate Lands(r: Received, f: AdaptiveDecoder)
  {
    r.Received? && Fit(r.d) && Frame(r.d) == f
  }

  lemma LastByte(fixed: bool, d: AdaptiveDecoder, c: Byte, f: AdaptiveDecoder)
    requires Lands(Feed(fixed, d, c), f)
    ensures Reaches(fixed, d, [c], f)
  {
    var e := Feed(fixed, d, c).d;
    DeliverByte(fixed, d, c, [], e);
    assert [c] + [] == [c];
  }

  /**
   * How many more strings a declaration's state queues before the byte
   * that completes it (the XML declaration is read in the prolog's
   * KnownElement state); none outside a declaration.
   */
  function Room(d: AdaptiveDecoder): int
  {
    if d.state == DoctypeState then 3 - |d.queue|
    else if d.state == KnownElementState then 2 - |d.queue|
    else if d.state == EntityDeclState then 5 - |d.queue|
    else if d.state == NotationDeclState then 2 - |d.queue|
    else 0
  }

  /** A declaration of the prolog still reading its strings: the next EndOfBlock queues one. */
  predicate Queueing(d: AdaptiveDecoder)
  {
    d.inProlog && !d.inAttrValue && Room(d) > 0
  }

  /** A declaration reading a string: Queueing, or the notation declaration's last string. */
  predicate Declaring(d: AdaptiveDecoder)
  {
    Queueing(d) || (d.inProlog && !d.inAttrValue && d.state == NotationDeclState && |d.queue| == 2)
  }

  /** The string EndOfBlock makes of the buffer: the XML declaration's may be null only, the others also empty. */
  function Item(d: AdaptiveDecoder): Option<Option<Text>>
  {
    if d.state == KnownElementState then PlainItem(d) else MarkedItem(d)
  }

  /** In the prolog the first switch passes EndOfBlock on to a declaration's state. */
  lemma EndPassed(d: AdaptiveDecoder)
    requires d.inProlog && d.state != NoState && d.state != NewElementState && d.state != KnownElementState
    ensures Intercept(d, EndOfBlock) == Passed(d)
  {
  }

  /** EndOfBlock queues the string the buffer holds and resets the buffer. */
  lemma StringEnd(fixed: bool, d: AdaptiveDecoder)
    requires Queueing(d) && Item(d).Some? && |d.raw| == BufferSize
    ensures Lands(Feed(fixed, d, EndOfBlock), Frame(d).(queue := d.queue + [Item(d).value]))
  {
    StringEndStep(fixed, d);
    ResetLands(d, d.queue + [Item(d).value]);
  }

  lemma StringEndStep(fixed: bool, d: AdaptiveDecoder)
    requires Queueing(d) && Item(d).Some? && |d.raw| == BufferSize
    ensures Feed(fixed, d, EndOfBlock) == Received(ResetBuffer(d.(queue := d.queue + [Item(d).value])))
  {
    if d.state == KnownElementState {
      XmlDeclStringEnd(fixed, d);
    } else {
      EndPassed(d);
      QueuedEnd(d);
    }
  }

  /** A buffer reset with a new queue lands with the fields and that queue. */
  lemma ResetLands(d: AdaptiveDecoder, q: seq<Option<Text>>)
    requires |d.raw| == BufferSize
    ensures Lands(Received(ResetBuffer(d.(queue := q))), Frame(d).(queue := q))
  {
  }

  lemma XmlDeclStringEnd(fixed: bool, d: AdaptiveDecoder)
    requires Queueing(d) && d.state == KnownElementState && PlainItem(d).Some?
    ensures ByteStep(fixed, d, EndOfBlock) == Running(ResetBuffer(d.(queue := d.queue + [PlainItem(d).value])))
  {
    assert XmlDeclStep(d, EndOfBlock) == Running(ResetBuffer(d.(queue := d.queue + [PlainItem(d).value])));
  }

  lemma QueuedEnd(d: AdaptiveDecoder)
    requires Queueing(d) && d.state != KnownElementState && MarkedItem(d).Some?
    ensures d.state == DoctypeState ==>
      DoctypeStep(d, EndOfBlock) == Running(ResetBuffer(d.(queue := d.queue + [MarkedItem(d).value])))
    ensures d.state == EntityDeclState ==>
      EntityDeclStep(d, EndOfBlock) == Running(ResetBuffer(d.(queue := d.queue + [MarkedItem(d).value])))
    ensures d.state == NotationDeclState ==>
      NotationDeclStep(d, EndOfBlock) == Running(ResetBuffer(d.(queue := d.queue + [MarkedItem(d).value])))
  {
  }

  /** What a string sends before its EndOfBlock. */
  function Body(s: Option<Text>): Text
  {
    if s.None? then [] else s.value
  }

  /** The same for a string that may be empty: EmptyString stands for the empty string. */
  function MarkBody(s: Option<Text>): Text
  {
    if s == Some([]) then [EmptyString] else Body(s)
  }

  /** EmptyString goes to the buffer of a declaration whose strings may be empty. */
  lemma EmptyStringStore(fixed: bool, d: AdaptiveDecoder)
    requires Declaring(d) && d.state != KnownElementState && Fit(d)
    ensures Feed(fixed, d, EmptyString) == Received(Appended(d, EmptyString))
  {
    assert Intercept(d, EmptyString) == Passed(d);
    DeclarationStore(d, EmptyString);
  }

  /** The body of a string, delivered: the buffer holds what EndOfBlock turns back into the string. */
  lemma StringBody(fixed: bool, d: AdaptiveDecoder, s: Option<Text>, marked: bool) returns (e: AdaptiveDecoder)
    requires Declaring(d) && Fit(d) && RT.ShortOpt(s) && (marked ==> d.state != KnownElementState)
    ensures DeliverOf(fixed, d, if marked then MarkBody(s) else Body(s)) == Received(e)
    ensures Declaring(e) && |e.raw| == BufferSize && Frame(e) == Frame(d)
    ensures Item(e) == Some(if marked then s else RT.NonNull(s))
  {
    if marked && s == Some([]) {
      e := EmptyBody(fixed, d);
    } else {
      e := TextBody(fixed, d, Body(s));
    }
  }

  lemma EmptyBody(fixed: bool, d: AdaptiveDecoder) returns (e: AdaptiveDecoder)
    requires Declaring(d) && Fit(d) && d.state != KnownElementState
    ensures DeliverOf(fixed, d, [EmptyString]) == Received(e)
    ensures Declaring(e) && |e.raw| == BufferSize && Frame(e) == Frame(d) && MarkedItem(e) == Some(Some([]))
  {
    EmptyStringStore(fixed, d);
    e := Appended(d, EmptyString);
    Single(fixed, d, EmptyString, e);
    EmptyHeld(d);
  }

  /** EmptyString alone in the buffer of a declaration. */
  lemma EmptyHeld(d: AdaptiveDecoder)
    requires Declaring(d) && Fit(d) && d.state != KnownElementState
    ensures Declaring(Appended(d, EmptyString)) && |Appended(d, EmptyString).raw| == BufferSize
    ensures Frame(Appended(d, EmptyString)) == Frame(d) && MarkedItem(Appended(d, EmptyString)) == Some(Some([]))
  {
    var e := Appended(d, EmptyString);
    assert e.raw[..1] == [EmptyString];
    EmptyItem(e);
  }

  lemma TextBody(fixed: bool, d: AdaptiveDecoder, t: Text) returns (e: AdaptiveDecoder)
    requires Declaring(d) && Fit(d) && RT.Short(t)
    ensures DeliverOf(fixed, d, t) == Received(e)
    ensures Declaring(e) && |e.raw| == BufferSize && Frame(e) == Frame(d)
    ensures PlainItem(e) == Some(RT.NonNull(Some(t))) && MarkedItem(e) == Some(RT.NonNull(Some(t)))
  {
    CollectText(fixed, d, t);
    QueuedText(d, t);
    e := Filled(d, t);
  }

  /** A declaration's string in the buffer: EndOfBlock will queue it. */
  lemma QueuedText(d: AdaptiveDecoder, t: Text)
    requires Declaring(d) && Fit(d) && RT.Short(t)
    ensures Declaring(Filled(d, t)) && |Filled(d, t).raw| == BufferSize && Frame(Filled(d, t)) == Frame(d)
    ensures PlainItem(Filled(d, t)) == Some(RT.NonNull(Some(t))) && MarkedItem(Filled(d, t)) == Some(RT.NonNull(Some(t)))
  {
    FilledHolds(d, [], t);
    assert [] + t == t;
    PlainItemOf(Filled(d, t), t);
  }

  /** A string as a declaration writes it: with OrEnd, or with Marked where it may be empty. */
  function Written(s: Option<Text>, marked: bool): seq<Byte>
  {
    if marked then Marked(s) else Simple.OrEnd(s)
  }

  /** The string a decoder queues for it: OrEnd turns the empty string into null. */
  function Read(s: Option<Text>, marked: bool): Option<Text>
  {
    if marked then s else RT.NonNull(s)
  }

  /** A decoder whose fields do not change but for the buffer keeps queueing. */
  lemma FrameQueueing(d: AdaptiveDecoder, e: AdaptiveDecoder)
    requires Queueing(d) && Frame(e) == Frame(d)
    ensures Queueing(e) && e.queue == d.queue
  {
    assert e.state == Frame(e).state && e.queue == Frame(e).queue;
  }

  /** A string of a declaration comes back: queued as the decoder reads it, the buffer empty again. */
  lemma StringRead(fixed: bool, d: AdaptiveDecoder, s: Option<Text>, marked: bool) returns (e: AdaptiveDecoder)
    requires Queueing(d) && Fit(d) && RT.ShortOpt(s) && (marked ==> d.state != KnownElementState)
    ensures DeliverOf(fixed, d, Written(s, marked)) == Received(e)
    ensures Fit(e) && Frame(e) == Frame(d).(queue := d.queue + [Read(s, marked)])
  {
    var b := StringBody(fixed, d, s, marked);
    FrameQueueing(d, b);
    StringEnd(fixed, b);
    assert Written(s, marked) == (if marked then MarkBody(s) else Body(s)) + [EndOfBlock];
    Then(fixed, d, if marked then MarkBody(s) else Body(s), [EndOfBlock], b);
    LastByte(fixed, b, EndOfBlock, Frame(d).(queue := d.queue + [Read(s, marked)]));
    e := DeliverOf(fixed, d, Written(s, marked)).d;
  }

  /** Strings one after the other, as a declaration writes them. */
  function Strings(ss: seq<Option<Text>>, marked: bool): seq<Byte>
  {
    if ss == [] then [] else Written(ss[0], marked) + Strings(ss[1..], marked)
  }

  /** The strings a decoder queues for them. */
  function QueuedAll(ss: seq<Option<Text>>, marked: bool): (r: seq<Option<Text>>)
    ensures |r| == |ss|
  {
    seq(|ss|, i requires 0 <= i < |ss| => Read(ss[i], marked))
  }

  predicate ShortAll(ss: seq<Option<Text>>)
  {
    forall i :: 0 <= i < |ss| ==> RT.ShortOpt(ss[i])
  }

  /** Delivering a then b, when a leaves e and b leaves f from e. */
  lemma Chain(fixed: bool, d: AdaptiveDecoder, a: seq<Byte>, e: AdaptiveDecoder, b: seq<Byte>, f: AdaptiveDecoder)
    requires DeliverOf(fixed, d, a) == Received(e) && DeliverOf(fixed, e, b) == Received(f)
    ensures DeliverOf(fixed, d, a + b) == Received(f)
  {
    Then(fixed, d, a, b, e);
  }

  /** One byte, delivered on its own. */
  lemma Single(fixed: bool, d: AdaptiveDecoder, c: Byte, e: AdaptiveDecoder)
    requires Feed(fixed, d, c) == Received(e)
    ensures DeliverOf(fixed, d, [c]) == Received(e)
  {
    DeliverByte(fixed, d, c, [], e);
    assert [c] + [] == [c];
  }

  /** After strings are queued, the declaration has room for fewer. */
  lemma QueueFacts(d: AdaptiveDecoder, e: AdaptiveDecoder, xs: seq<Option<Text>>)
    requires Frame(e) == Frame(d).(queue := d.queue + xs) && Room(d) > 0
    ensures e.inProlog == d.inProlog && e.inAttrValue == d.inAttrValue && e.state == d.state
    ensures e.queue == d.queue + xs && Room(e) == Room(d) - |xs|
  {
    assert e.state == Frame(e).state && e.queue == Frame(e).queue;
    assert e.inProlog == Frame(e).inProlog && e.inAttrValue == Frame(e).inAttrValue;
  }

  /** Two queue extensions in a row. */
  lemma QueuesJoin(d: AdaptiveDecoder, e: AdaptiveDecoder, f: AdaptiveDecoder, xs: seq<Option<Text>>, ys: seq<Option<Text>>)
    requires Frame(e) == Frame(d).(queue := d.queue + xs) && Frame(f) == Frame(e).(queue := e.queue + ys)
    ensures Frame(f) == Frame(d).(queue := d.queue + (xs + ys))
  {
    assert e.queue == Frame(e).queue;
    assert d.queue + xs + ys == d.queue + (xs + ys);
  }

  lemma QueuedFirst(ss: seq<Option<Text>>, marked: bool)
    requires ss != []
    ensures QueuedAll(ss, marked) == [Read(ss[0], marked)] + QueuedAll(ss[1..], marked)
  {
    assert QueuedAll(ss, marked) == [Read(ss[0], marked)] + QueuedAll(ss[1..], marked) by {
      var r := QueuedAll(ss, marked);
      var t := [Read(ss[0], marked)] + QueuedAll(ss[1..], marked);
      assert |r| == |t|;
      forall i | 0 <= i < |r| ensures r[i] == t[i] {
        if i > 0 { assert t[i] == QueuedAll(ss[1..], marked)[i - 1]; }
      }
    }
  }

  /** Strings a declaration has room for come back, queued in order. */
  lemma {:induction false} StringsRead(fixed: bool, d: AdaptiveDecoder, ss: seq<Option<Text>>, marked: bool) returns (e: AdaptiveDecoder)
    requires d.inProlog && !d.inAttrValue && Fit(d) && |ss| <= Room(d) && (marked && ss != [] ==> d.state != KnownElementState)
    requires ShortAll(ss)
    ensures DeliverOf(fixed, d, Strings(ss, marked)) == Received(e)
    ensures Fit(e) && Frame(e) == Frame(d).(queue := d.queue + QueuedAll(ss, marked))
    decreases |ss|
  {
    if ss == [] {
      assert d.queue + QueuedAll(ss, marked) == d.queue;
      e := d;
    } else {
      assert RT.ShortOpt(ss[0]);
      var e1 := StringRead(fixed, d, ss[0], marked);
      QueueFacts(d, e1, [Read(ss[0], marked)]);
      assert ShortAll(ss[1..]) by {
        forall i | 0 <= i < |ss[1..]| ensures RT.ShortOpt(ss[1..][i]) { assert ss[1..][i] == ss[i + 1]; }
      }
      var e2 := StringsRead(fixed, e1, ss[1..], marked);
      Chain(fixed, d, Written(ss[0], marked), e1, Strings(ss[1..], marked), e2);
      QueuesJoin(d, e1, e2, [Read(ss[0], marked)], QueuedAll(ss[1..], marked));
      QueuedFirst(ss, marked);
      e := e2;
    }
  }

  // ---------------------------------------------------------------------
  // Declarations of the prolog
  // ---------------------------------------------------------------------

  /** Between two events of the prolog: nothing being read, buffered or queued. */
  predicate PrologIdle(d: AdaptiveDecoder)
  {
    Fit(d) && d.state == NoState && d.inProlog && d.queue == [] && !d.inAttrValue && !d.inComment && d.inPI == 0
  }

  /** The state a symbol that opens a declaration or default data enters from the idle prolog. */
  function OpenedState(c: Byte): int
  {
    if c == XmlDecl then KnownElementState
    else if c == Doctype then DoctypeState
    else if c == Default then DefaultState
    else if c == EntityDecl then EntityDeclState
    else NotationDeclState
  }

  /** The decoder after such a symbol; Doctype also sets inDoctype. */
  function Opened(d: AdaptiveDecoder, c: Byte): AdaptiveDecoder
  {
    if c == Doctype then d.(state := DoctypeState, inDoctype := true) else d.(state := OpenedState(c))
  }

  predicate Opening(c: Byte)
  {
    c == XmlDecl || c == Doctype || c == Default || c == EntityDecl || c == NotationDecl
  }

  /** Outside a doctype, and for all but Doctype within one, the symbol enters its state and is consumed. */
  lemma OpenByte(fixed: bool, d: AdaptiveDecoder, c: Byte)
    requires PrologIdle(d) && Opening(c) && (c == Doctype ==> !d.inDoctype)
    ensures Feed(fixed, d, c) == Received(Opened(d, c))
  {
    if c == Doctype {
      assert Intercept(d, c) == Consumed(d.(state := DoctypeState, inDoctype := true));
    } else {
      assert Intercept(d, c) == Consumed(d.(state := OpenedState(c)));
    }
  }

  /** In a doctype, Doctype ends it. */
  lemma DoctypeClose(fixed: bool, d: AdaptiveDecoder)
    requires PrologIdle(d) && d.inDoctype
    ensures Feed(fixed, d, Doctype) == Received(Reset(d.(inDoctype := false, emitted := d.emitted + [Sax(EndDoctypeSax)])))
  {
    assert Intercept(d, Doctype) == Consumed(Reset(d.(inDoctype := false, emitted := d.emitted + [Sax(EndDoctypeSax)])));
  }

  /** The decoder a declaration leaves while its strings are queued. */
  function Reading(d: AdaptiveDecoder, s: int, dt: bool, q: seq<Option<Text>>): AdaptiveDecoder
  {
    Frame(d).(state := s, inDoctype := dt, queue := q)
  }

  /** The symbol that opens a declaration, then its strings: with OrEnd, then with Marked. */
  function Opens(c: Byte, plain: seq<Option<Text>>, marked: seq<Option<Text>>): seq<Byte>
  {
    [c] + Strings(plain, false) + Strings(marked, true)
  }

  lemma OpenedFacts(d: AdaptiveDecoder, c: Byte)
    requires PrologIdle(d) && Opening(c) && c != Default
    ensures Fit(Opened(d, c)) && Opened(d, c).inProlog && !Opened(d, c).inAttrValue && Opened(d, c).queue == []
    ensures Room(Opened(d, c)) == (if c == Doctype then 3 else if c == EntityDecl then 5 else 2)
    ensures Opened(d, c).state == KnownElementState <==> c == XmlDecl
  {
  }

  lemma OpenedFrame(d: AdaptiveDecoder, c: Byte)
    requires PrologIdle(d)
    ensures Frame(Opened(d, c)) == Reading(d, OpenedState(c), c == Doctype || d.inDoctype, [])
  {
    if c == Doctype {
      assert Frame(Opened(d, c)) == Frame(d).(state := DoctypeState, inDoctype := true);
    } else {
      assert Frame(Opened(d, c)) == Frame(d).(state := OpenedState(c));
    }
  }

  lemma ReadingFrame(d: AdaptiveDecoder, d1: AdaptiveDecoder, e: AdaptiveDecoder, s: int, dt: bool, xs: seq<Option<Text>>)
    requires Frame(d1) == Reading(d, s, dt, []) && Frame(e) == Frame(d1).(queue := d1.queue + xs)
    ensures Frame(e) == Reading(d, s, dt, xs)
  {
    assert d1.queue == Frame(d1).queue == [];
    assert [] + xs == xs;
  }

  /** The symbol of a declaration and its strings: the strings are queued in order. */
  lemma OpensRead(fixed: bool, d: AdaptiveDecoder, c: Byte, plain: seq<Option<Text>>, marked: seq<Option<Text>>)
    returns (e: AdaptiveDecoder)
    requires PrologIdle(d) && Opening(c) && c != Default && (c == Doctype ==> !d.inDoctype)
    requires ShortAll(plain) && ShortAll(marked) && (marked != [] ==> c != XmlDecl)
    requires |plain| + |marked| <= (if c == Doctype then 3 else if c == EntityDecl then 5 else 2)
    ensures DeliverOf(fixed, d, Opens(c, plain, marked)) == Received(e)
    ensures Fit(e) && Frame(e) == Reading(d, OpenedState(c), c == Doctype || d.inDoctype, QueuedAll(plain, false) + QueuedAll(marked, true))
  {
    var d1 := Opened(d, c);
    OpenByte(fixed, d, c);
    Single(fixed, d, c, d1);
    OpenedFacts(d, c);
    var e1 := StringsRead(fixed, d1, plain, false);
    Chain(fixed, d, [c], d1, Strings(plain, false), e1);
    QueueFacts(d1, e1, QueuedAll(plain, false));
    var e2 := StringsRead(fixed, e1, marked, true);
    Chain(fixed, d, [c] + Strings(plain, false), e1, Strings(marked, true), e2);
    QueuesJoin(d1, e1, e2, QueuedAll(plain, false), QueuedAll(marked, true));
    OpenedFrame(d, c);
    ReadingFrame(d, d1, e2, OpenedState(c), c == Doctype || d.inDoctype, QueuedAll(plain, false) + QueuedAll(marked, true));
    e := e2;
  }

  /** A declaration completed from its queue: the decoder is idle again, one event further. */
  lemma Completed(d: AdaptiveDecoder, x: AdaptiveDecoder, s: int, dt: bool, q: seq<Option<Text>>, ev: Decoded)
    requires PrologIdle(d) && |x.raw| == BufferSize && Frame(x) == Reading(d, s, dt, q)
    ensures Fit(Reset(x.(queue := [], emitted := x.emitted + [ev])))
    ensures Frame(Reset(x.(queue := [], emitted := x.emitted + [ev]))) == Frame(d).(inDoctype := dt, emitted := d.emitted + [ev])
  {
    assert x.emitted == Frame(x).emitted;
  }

  /** Fields of a decoder that reads a declaration's strings. */
  lemma ReadingFacts(d: AdaptiveDecoder, x: AdaptiveDecoder, s: int, dt: bool, q: seq<Option<Text>>)
    requires PrologIdle(d) && Frame(x) == Reading(d, s, dt, q)
    ensures x.state == s && x.queue == q && x.inProlog && !x.inAttrValue
  {
    assert x.state == Frame(x).state && x.queue == Frame(x).queue;
    assert x.inProlog == Frame(x).inProlog && x.inAttrValue == Frame(x).inAttrValue;
  }

  /** The standalone flag completes the XML declaration. */
  lemma StandaloneByte(fixed: bool, d: AdaptiveDecoder, sa: int)
    requires d.state == KnownElementState && d.inProlog && |d.queue| == 2
    ensures Feed(fixed, d, Simple.Standalone(sa)) == Received(Reset(d.(queue := [],
      emitted := d.emitted + [Sax(XmlDeclSax(d.queue[0], d.queue[1], RT.StandaloneRead(sa)))])))
  {
    assert d.queue[2..] == [];
    assert XmlDeclStep(d, Simple.Standalone(sa)) == Running(Reset(d.(queue := [],
      emitted := d.emitted + [Sax(XmlDeclSax(d.queue[0], d.queue[1], RT.StandaloneRead(sa)))])));
  }

  /** The internal-subset flag completes the doctype. */
  lemma DoctypeFlag(fixed: bool, d: AdaptiveDecoder, internal: bool)
    requires d.state == DoctypeState && d.inProlog && |d.queue| == 3
    ensures Feed(fixed, d, if internal then HasInternalSubsetYes else HasInternalSubsetNo) == Received(Reset(d.(queue := [],
      emitted := d.emitted + [Sax(StartDoctypeSax(d.queue[0], d.queue[2], d.queue[1], internal))])))
  {
    assert Intercept(d, if internal then HasInternalSubsetYes else HasInternalSubsetNo) == Passed(d);
  }

  /** The parameter-entity flag completes the entity declaration. */
  lemma EntityFlag(fixed: bool, d: AdaptiveDecoder, parameter: bool)
    requires d.state == EntityDeclState && d.inProlog && |d.queue| == 5
    ensures Feed(fixed, d, if parameter then IsParameterEntityYes else IsParameterEntityNo) == Received(Reset(d.(queue := [],
      emitted := d.emitted + [Sax(EntityDeclSax(d.queue[0], parameter, d.queue[1], d.queue[2], d.queue[3], d.queue[4]))])))
  {
    assert Intercept(d, if parameter then IsParameterEntityYes else IsParameterEntityNo) == Passed(d);
  }

  /** EndOfBlock after the notation declaration's third string completes it. */
  lemma NotationEnd(fixed: bool, d: AdaptiveDecoder)
    requires d.state == NotationDeclState && d.inProlog && |d.queue| == 2 && MarkedItem(d).Some?
    ensures Feed(fixed, d, EndOfBlock) == Received(Reset(d.(queue := [],
      emitted := d.emitted + [Sax(NotationDeclSax(d.queue[0], d.queue[1], MarkedItem(d).value))])))
  {
    EndPassed(d);
    var q := d.queue + [MarkedItem(d).value];
    assert |q| == 3 && q[0] == d.queue[0] && q[1] == d.queue[1];
    assert NotationDeclStep(d, EndOfBlock) == Running(ResetBuffer(d.(queue := [], state := NoState,
      emitted := d.emitted + [Sax(NotationDeclSax(d.queue[0], d.queue[1], MarkedItem(d).value))])));
  }

  /** The symbols of an XML declaration with a version. */
  function XmlDeclSymbols(version: Text, encoding: Option<Text>, standalone: int): seq<Byte>
  {
    Opens(XmlDecl, [Some(version), encoding], []) + [Simple.Standalone(standalone)]
  }

  /** An XML declaration is read back; a version or encoding that is empty comes back null. */
  lemma XmlDeclRead(fixed: bool, d: AdaptiveDecoder, version: Text, encoding: Option<Text>, standalone: int)
    returns (e: AdaptiveDecoder)
    requires PrologIdle(d) && RT.Short(version) && RT.ShortOpt(encoding)
    ensures DeliverOf(fixed, d, XmlDeclSymbols(version, encoding, standalone)) == Received(e)
    ensures Fit(e) && Frame(e) == Frame(d).(inDoctype := d.inDoctype,
      emitted := d.emitted + [Sax(XmlDeclSax(RT.NonNull(Some(version)), RT.NonNull(encoding), RT.StandaloneRead(standalone)))])
  {
    var ss := [Some(version), encoding];
    var x := XmlDeclSteps(fixed, d, version, encoding, standalone);
    var q := QueuedAll(ss, false) + QueuedAll([], true);
    var ev := Sax(XmlDeclSax(x.queue[0], x.queue[1], RT.StandaloneRead(standalone)));
    Completed(d, x, KnownElementState, d.inDoctype, q, ev);
    e := Reset(x.(queue := [], emitted := x.emitted + [ev]));
  }

  lemma XmlDeclSteps(fixed: bool, d: AdaptiveDecoder, version: Text, encoding: Option<Text>, standalone: int)
    returns (x: AdaptiveDecoder)
    requires PrologIdle(d) && RT.Short(version) && RT.ShortOpt(encoding)
    ensures Fit(x) && Frame(x) == Reading(d, KnownElementState, d.inDoctype, QueuedAll([Some(version), encoding], false) + QueuedAll([], true))
    ensures x.queue == [RT.NonNull(Some(version)), RT.NonNull(encoding)]
    ensures DeliverOf(fixed, d, XmlDeclSymbols(version, encoding, standalone)) == Received(Reset(x.(queue := [],
      emitted := x.emitted + [Sax(XmlDeclSax(x.queue[0], x.queue[1], RT.StandaloneRead(standalone)))])))
  {
    var ss := [Some(version), encoding];
    assert ShortAll(ss) && ShortAll([]);
    x := OpensRead(fixed, d, XmlDecl, ss, []);
    var q := QueuedAll(ss, false) + QueuedAll([], true);
    ReadingFacts(d, x, KnownElementState, d.inDoctype, q);
    StandaloneByte(fixed, x, standalone);
    var e := Reset(x.(queue := [], emitted := x.emitted + [Sax(XmlDeclSax(x.queue[0], x.queue[1], RT.StandaloneRead(standalone)))]));
    Single(fixed, x, Simple.Standalone(standalone), e);
    Chain(fixed, d, Opens(XmlDecl, ss, []), x, [Simple.Standalone(standalone)], e);
  }

  /** The symbols of a doctype. */
  function DoctypeSymbols(name: Option<Text>, systemId: Option<Text>, publicId: Option<Text>, internal: bool): seq<Byte>
  {
    Opens(Doctype, [name], [publicId, systemId]) + [if internal then HasInternalSubsetYes else HasInternalSubsetNo]
  }

  /** The start of a doctype is read back, and the decoder is in the doctype. */
  lemma DoctypeRead(fixed: bool, d: AdaptiveDecoder, name: Option<Text>, systemId: Option<Text>, publicId: Option<Text>, internal: bool)
    returns (e: AdaptiveDecoder)
    requires PrologIdle(d) && !d.inDoctype && RT.ShortOpt(name) && RT.ShortOpt(systemId) && RT.ShortOpt(publicId)
    ensures DeliverOf(fixed, d, DoctypeSymbols(name, systemId, publicId, internal)) == Received(e)
    ensures Fit(e) && Frame(e) == Frame(d).(inDoctype := true,
      emitted := d.emitted + [Sax(StartDoctypeSax(RT.NonNull(name), systemId, publicId, internal))])
  {
    var flag := if internal then HasInternalSubsetYes else HasInternalSubsetNo;
    assert ShortAll([name]) && ShortAll([publicId, systemId]);
    var x := OpensRead(fixed, d, Doctype, [name], [publicId, systemId]);
    var q := QueuedAll([name], false) + QueuedAll([publicId, systemId], true);
    ReadingFacts(d, x, DoctypeState, true, q);
    DoctypeFlag(fixed, x, internal);
    var ev := Sax(StartDoctypeSax(x.queue[0], x.queue[2], x.queue[1], internal));
    e := Reset(x.(queue := [], emitted := x.emitted + [ev]));
    Single(fixed, x, flag, e);
    Chain(fixed, d, Opens(Doctype, [name], [publicId, systemId]), x, [flag], e);
    Completed(d, x, DoctypeState, true, q, ev);
    assert x.queue[0] == RT.NonNull(name) && x.queue[1] == publicId && x.queue[2] == systemId;
  }

  /** The end of a doctype is read back, and the decoder has left it. */
  lemma EndDoctypeRead(fixed: bool, d: AdaptiveDecoder) returns (e: AdaptiveDecoder)
    requires PrologIdle(d) && d.inDoctype
    ensures DeliverOf(fixed, d, [Doctype]) == Received(e)
    ensures Fit(e) && Frame(e) == Frame(d).(inDoctype := false, emitted := d.emitted + [Sax(EndDoctypeSax)])
  {
    DoctypeClose(fixed, d);
    e := Reset(d.(inDoctype := false, emitted := d.emitted + [Sax(EndDoctypeSax)]));
    Single(fixed, d, Doctype, e);
  }

  /** The symbols of an entity declaration. */
  function EntitySymbols(name: Option<Text>, parameter: bool, value: Option<Text>, systemId: Option<Text>,
                         publicId: Option<Text>, notation: Option<Text>): seq<Byte>
  {
    Opens(EntityDecl, [name], [value, systemId, publicId, notation]) + [if parameter then IsParameterEntityYes else IsParameterEntityNo]
  }

  /** An entity declaration is read back. */
  lemma EntityDeclRead(fixed: bool, d: AdaptiveDecoder, name: Option<Text>, parameter: bool, value: Option<Text>,
                       systemId: Option<Text>, publicId: Option<Text>, notation: Option<Text>)
    returns (e: AdaptiveDecoder)
    requires PrologIdle(d) && RT.ShortOpt(name) && RT.ShortOpt(value) && RT.ShortOpt(systemId)
    requires RT.ShortOpt(publicId) && RT.ShortOpt(notation)
    ensures DeliverOf(fixed, d, EntitySymbols(name, parameter, value, systemId, publicId, notation)) == Received(e)
    ensures Fit(e) && Frame(e) == Frame(d).(inDoctype := d.inDoctype,
      emitted := d.emitted + [Sax(EntityDeclSax(RT.NonNull(name), parameter, value, systemId, publicId, notation))])
  {
    var ms := [value, systemId, publicId, notation];
    var x := EntityDeclSteps(fixed, d, name, parameter, value, systemId, publicId, notation);
    var q := QueuedAll([name], false) + QueuedAll(ms, true);
    var ev := Sax(EntityDeclSax(x.queue[0], parameter, x.queue[1], x.queue[2], x.queue[3], x.queue[4]));
    Completed(d, x, EntityDeclState, d.inDoctype, q, ev);
    e := Reset(x.(queue := [], emitted := x.emitted + [ev]));
  }

  lemma EntityQueue(name: Option<Text>, value: Option<Text>, systemId: Option<Text>, publicId: Option<Text>, notation: Option<Text>)
    ensures QueuedAll([name], false) + QueuedAll([value, systemId, publicId, notation], true)
      == [RT.NonNull(name), value, systemId, publicId, notation]
  {
  }

  lemma EntityDeclSteps(fixed: bool, d: AdaptiveDecoder, name: Option<Text>, parameter: bool, value: Option<Text>,
                        systemId: Option<Text>, publicId: Option<Text>, notation: Option<Text>)
    returns (x: AdaptiveDecoder)
    requires PrologIdle(d) && RT.ShortOpt(name) && RT.ShortOpt(value) && RT.ShortOpt(systemId)
    requires RT.ShortOpt(publicId) && RT.ShortOpt(notation)
    ensures Fit(x) && Frame(x) == Reading(d, EntityDeclState, d.inDoctype,
      QueuedAll([name], false) + QueuedAll([value, systemId, publicId, notation], true))
    ensures x.queue == [RT.NonNull(name), value, systemId, publicId, notation]
    ensures DeliverOf(fixed, d, EntitySymbols(name, parameter, value, systemId, publicId, notation)) == Received(Reset(x.(queue := [],
      emitted := x.emitted + [Sax(EntityDeclSax(x.queue[0], parameter, x.queue[1], x.queue[2], x.queue[3], x.queue[4]))])))
  {
    var flag := if parameter then IsParameterEntityYes else IsParameterEntityNo;
    var ms := [value, systemId, publicId, notation];
    assert ShortAll([name]) && ShortAll(ms);
    x := OpensRead(fixed, d, EntityDecl, [name], ms);
    var q := QueuedAll([name], false) + QueuedAll(ms, true);
    ReadingFacts(d, x, EntityDeclState, d.inDoctype, q);
    EntityQueue(name, value, systemId, publicId, notation);
    EntityFlag(fixed, x, parameter);
    var e := Reset(x.(queue := [], emitted := x.emitted
      + [Sax(EntityDeclSax(x.queue[0], parameter, x.queue[1], x.queue[2], x.queue[3], x.queue[4]))]));
    Single(fixed, x, flag, e);
    Chain(fixed, d, Opens(EntityDecl, [name], ms), x, [flag], e);
  }

  /** The symbols of a notation declaration. */
  function NotationSymbols(name: Option<Text>, systemId: Option<Text>, publicId: Option<Text>): seq<Byte>
  {
    Opens(NotationDecl, [name], [systemId]) + Marked(publicId)
  }

  /** A notation declaration is read back. */
  lemma NotationDeclRead(fixed: bool, d: AdaptiveDecoder, name: Option<Text>, systemId: Option<Text>, publicId: Option<Text>)
    returns (e: AdaptiveDecoder)
    requires PrologIdle(d) && RT.ShortOpt(name) && RT.ShortOpt(systemId) && RT.ShortOpt(publicId)
    ensures DeliverOf(fixed, d, NotationSymbols(name, systemId, publicId)) == Received(e)
    ensures Fit(e) && Frame(e) == Frame(d).(inDoctype := d.inDoctype,
      emitted := d.emitted + [Sax(NotationDeclSax(RT.NonNull(name), systemId, publicId))])
  {
    assert ShortAll([name]) && ShortAll([systemId]);
    var x := OpensRead(fixed, d, NotationDecl, [name], [systemId]);
    var q := QueuedAll([name], false) + QueuedAll([systemId], true);
    var b := NotationLast(fixed, d, x, q, publicId);
    var ev := Sax(NotationDeclSax(x.queue[0], x.queue[1], publicId));
    e := Reset(b.(queue := [], emitted := b.emitted + [ev]));
    Chain(fixed, d, Opens(NotationDecl, [name], [systemId]), x, Marked(publicId), e);
    Completed(d, b, NotationDeclState, d.inDoctype, q, ev);
    assert x.queue[0] == RT.NonNull(name) && x.queue[1] == systemId;
  }

  /** The notation declaration's public id, and the EndOfBlock after it. */
  lemma NotationLast(fixed: bool, d: AdaptiveDecoder, x: AdaptiveDecoder, q: seq<Option<Text>>, publicId: Option<Text>)
    returns (b: AdaptiveDecoder)
    requires PrologIdle(d) && Fit(x) && Frame(x) == Reading(d, NotationDeclState, d.inDoctype, q) && |q| == 2
    requires RT.ShortOpt(publicId)
    ensures DeliverOf(fixed, x, Marked(publicId)) == Received(Reset(b.(queue := [],
      emitted := b.emitted + [Sax(NotationDeclSax(x.queue[0], x.queue[1], publicId))])))
    ensures |b.raw| == BufferSize && Frame(b) == Reading(d, NotationDeclState, d.inDoctype, q) && b.queue == x.queue
  {
    ReadingFacts(d, x, NotationDeclState, d.inDoctype, q);
    b := StringBody(fixed, x, publicId, true);
    ReadingFacts(d, b, NotationDeclState, d.inDoctype, q);
    NotationEnd(fixed, b);
    assert Marked(publicId) == MarkBody(publicId) + [EndOfBlock];
    Single(fixed, b, EndOfBlock, Reset(b.(queue := [], emitted := b.emitted + [Sax(NotationDeclSax(x.queue[0], x.queue[1], publicId))])));
    Chain(fixed, x, MarkBody(publicId), b, [EndOfBlock], Reset(b.(queue := [], emitted := b.emitted + [Sax(NotationDeclSax(x.queue[0], x.queue[1], publicId))])));
  }

  // ---------------------------------------------------------------------
  // Default data, comments and processing instructions of the prolog
  // ---------------------------------------------------------------------

  /** Default data of the prolog is handed on at its EndOfBlock. */
  lemma DefaultEnd(fixed: bool, f: AdaptiveDecoder)
    requires f.state == DefaultState && f.inProlog && !f.inComment && f.inPI == 0
    ensures Feed(fixed, f, EndOfBlock) == Received(Reset(f.(emitted := f.emitted + [Sax(DefaultSax(Contents(f)))])))
  {
    assert Intercept(f, EndOfBlock) == Passed(f);
  }

  /** The decoder in Default state, from the idle prolog. */
  function InDefault(d: AdaptiveDecoder): AdaptiveDecoder
  {
    d.(state := DefaultState)
  }

  lemma DefaultSteps(fixed: bool, d: AdaptiveDecoder, data: Text) returns (f: AdaptiveDecoder)
    requires PrologIdle(d) && RT.Short(data)
    ensures f == Filled(InDefault(d), data)
    ensures DeliverOf(fixed, d, [Default] + Simple.Terminated(data)) == Received(Reset(f.(emitted := f.emitted + [Sax(DefaultSax(Contents(f)))])))
  {
    var d1 := InDefault(d);
    OpenByte(fixed, d, Default);
    Single(fixed, d, Default, d1);
    CollectText(fixed, d1, data);
    f := Filled(d1, data);
    Chain(fixed, d, [Default], d1, data, f);
    DefaultEnd(fixed, f);
    var g := Reset(f.(emitted := f.emitted + [Sax(DefaultSax(Contents(f)))]));
    Single(fixed, f, EndOfBlock, g);
    Chain(fixed, d, [Default] + data, f, [EndOfBlock], g);
    assert [Default] + Simple.Terminated(data) == [Default] + data + [EndOfBlock];
  }

  /** A text collected in a state of the prolog that the end resets. */
  lemma MarkupDone(d: AdaptiveDecoder, x: AdaptiveDecoder, t: Text, es: seq<Decoded>)
    requires PrologIdle(d) && Holding(x, t) && Frame(x) == Frame(d).(state := DefaultState, inComment := x.inComment, inPI := x.inPI)
    ensures Contents(x) == t
    ensures Fit(Reset(x.(inComment := false, inPI := 0, emitted := x.emitted + es)))
    ensures Frame(Reset(x.(inComment := false, inPI := 0, emitted := x.emitted + es))) == Frame(d).(emitted := d.emitted + es)
  {
    assert x.emitted == Frame(x).emitted;
  }

  lemma DefaultHolds(d: AdaptiveDecoder, data: Text)
    requires PrologIdle(d) && RT.Short(data)
    ensures Holding(Filled(InDefault(d), data), data)
    ensures Frame(Filled(InDefault(d), data)) == Frame(d).(state := DefaultState, inComment := false, inPI := 0)
  {
    FilledHolds(InDefault(d), [], data);
    assert [] + data == data;
  }

  /** Default data of the prolog is read back. */
  lemma DefaultRead(fixed: bool, d: AdaptiveDecoder, data: Text) returns (e: AdaptiveDecoder)
    requires PrologIdle(d) && RT.Short(data)
    ensures DeliverOf(fixed, d, [Default] + Simple.Terminated(data)) == Received(e)
    ensures Fit(e) && Frame(e) == Frame(d).(emitted := d.emitted + [Sax(DefaultSax(data))])
  {
    var f := DefaultSteps(fixed, d, data);
    DefaultHolds(d, data);
    MarkupDone(d, f, data, [Sax(DefaultSax(data))]);
    assert f.(inComment := false, inPI := 0) == f;
    e := Reset(f.(emitted := f.emitted + [Sax(DefaultSax(data))]));
  }

  /** What a comment is handed on as: nothing when it is empty. */
  function CommentCalls(t: Text): seq<Decoded>
  {
    if t == [] then [] else [Sax(CommentSax(t))]
  }

  /** Comment, in Default data, clears the buffer and opens the comment. */
  lemma CommentOpen(fixed: bool, d: AdaptiveDecoder)
    requires d.state == DefaultState && d.inProlog && d.length == 0
    ensures Feed(fixed, d, Comment) == Received(ResetBuffer(d.(inComment := true)))
  {
    assert Intercept(d, Comment) == Passed(d);
  }

  /** The corrected decoder hands on the bytes in use at the comment's EndOfBlock. */
  lemma CommentClose(f: AdaptiveDecoder)
    requires f.state == DefaultState && f.inProlog && f.inComment && f.length <= |f.raw|
    ensures Feed(true, f, EndOfBlock) == Received(Reset(f.(inComment := false, emitted := f.emitted + CommentCalls(Contents(f)))))
  {
    assert Intercept(f, EndOfBlock) == Passed(f);
    assert f.length == 0 <==> Contents(f) == [];
  }

  /** The decoder once a comment of the prolog has been opened. */
  function InComment(d: AdaptiveDecoder): AdaptiveDecoder
  {
    ResetBuffer(InDefault(d).(inComment := true))
  }

  lemma CommentSteps(d: AdaptiveDecoder, t: Text) returns (f: AdaptiveDecoder)
    requires PrologIdle(d) && RT.Short(t)
    ensures f == Filled(InComment(d), t)
    ensures DeliverOf(true, d, [Default, Comment] + Simple.Terminated(t))
      == Received(Reset(f.(inComment := false, emitted := f.emitted + CommentCalls(Contents(f)))))
  {
    var d1 := InDefault(d);
    OpenByte(true, d, Default);
    Single(true, d, Default, d1);
    CommentOpen(true, d1);
    var d2 := InComment(d);
    Single(true, d1, Comment, d2);
    Chain(true, d, [Default], d1, [Comment], d2);
    CollectText(true, d2, t);
    f := Filled(d2, t);
    Chain(true, d, [Default, Comment], d2, t, f);
    CommentClose(f);
    var g := Reset(f.(inComment := false, emitted := f.emitted + CommentCalls(Contents(f))));
    Single(true, f, EndOfBlock, g);
    Chain(true, d, [Default, Comment] + t, f, [EndOfBlock], g);
    assert [Default, Comment] + Simple.Terminated(t) == [Default, Comment] + t + [EndOfBlock];
  }

  lemma CommentHolds(d: AdaptiveDecoder, t: Text)
    requires PrologIdle(d) && RT.Short(t)
    ensures Holding(Filled(InComment(d), t), t)
    ensures Frame(Filled(InComment(d), t)) == Frame(d).(state := DefaultState, inComment := true, inPI := 0)
  {
    ResetFit(InDefault(d).(inComment := true));
    FilledHolds(InComment(d), [], t);
    assert [] + t == t;
  }

  /** A comment of the prolog is read back by the corrected decoder; an empty one is handed on as nothing. */
  lemma CommentRead(d: AdaptiveDecoder, t: Text) returns (e: AdaptiveDecoder)
    requires PrologIdle(d) && RT.Short(t)
    ensures DeliverOf(true, d, [Default, Comment] + Simple.Terminated(t)) == Received(e)
    ensures Fit(e) && Frame(e) == Frame(d).(emitted := d.emitted + CommentCalls(t))
  {
    var f := CommentSteps(d, t);
    CommentHolds(d, t);
    MarkupDone(d, f, t, CommentCalls(t));
    assert f.(inComment := false, inPI := 0) == f.(inComment := false);
    e := Reset(f.(inComment := false, emitted := f.emitted + CommentCalls(t)));
  }

  /** PI, in Default data, clears the buffer and opens the processing instruction: two strings to come. */
  lemma PIOpen(fixed: bool, d: AdaptiveDecoder)
    requires d.state == DefaultState && d.inProlog && d.length == 0
    ensures Feed(fixed, d, PI) == Received(ResetBuffer(d.(inPI := 2)))
  {
    assert Intercept(d, PI) == Passed(d);
  }

  /** The target's EndOfBlock goes to the buffer. */
  lemma PIMiddle(fixed: bool, f: AdaptiveDecoder)
    requires f.state == DefaultState && f.inProlog && !f.inComment && f.inPI == 2 && f.length < |f.raw|
    ensures Feed(fixed, f, EndOfBlock) == Received(Appended(f.(inPI := 1), EndOfBlock))
  {
    assert Intercept(f, EndOfBlock) == Passed(f);
  }

  /** The data's EndOfBlock completes the processing instruction from the two strings of the buffer. */
  lemma PIClose(f: AdaptiveDecoder, target: Text, data: Text)
    requires f.state == DefaultState && f.inProlog && !f.inComment && f.inPI == 1 && f.length < |f.raw|
    requires CString(f.raw[f.length := 0], 0) == Some(target) && CString(f.raw[f.length := 0], |target| + 1) == Some(data)
    ensures Feed(true, f, EndOfBlock) == Received(Reset(Appended(f.(inPI := 0), EndOfBlock).(emitted := f.emitted + [Sax(PISax(Some(target), data))])))
  {
    assert Intercept(f, EndOfBlock) == Passed(f);
    assert DefaultStep(true, f, EndOfBlock) == PIEnd(true, f);
    PIComplete(f, target, data);
    assert ByteStep(true, f, EndOfBlock) == PIEnd(true, f);
  }

  lemma PIComplete(f: AdaptiveDecoder, target: Text, data: Text)
    requires f.state == DefaultState && f.inProlog && f.inPI == 1 && f.length < |f.raw|
    requires CString(f.raw[f.length := 0], 0) == Some(target) && CString(f.raw[f.length := 0], |target| + 1) == Some(data)
    ensures PIEnd(true, f) == Running(Reset(Appended(f.(inPI := 0), EndOfBlock).(emitted := f.emitted + [Sax(PISax(Some(target), data))])))
  {
    var p := PutByte(f.(inPI := 0), EndOfBlock);
    assert p.Some? && p.value.raw == f.raw[f.length := 0] && p.value.inPI == 0;
    assert p.value == Appended(f.(inPI := 0), EndOfBlock);
  }

  /** The decoder once a processing instruction of the prolog has been opened. */
  function InPI(d: AdaptiveDecoder): AdaptiveDecoder
  {
    ResetBuffer(InDefault(d).(inPI := 2))
  }

  /** The decoder after a processing instruction's target. */
  function PITarget(d: AdaptiveDecoder, target: Text): AdaptiveDecoder
    requires |d.raw| == BufferSize && |target| < BufferSize
  {
    Appended(Filled(InPI(d), target).(inPI := 1), EndOfBlock)
  }

  lemma PIFirst(d: AdaptiveDecoder, target: Text)
    requires PrologIdle(d) && RT.Short(target)
    ensures DeliverOf(true, d, [Default, PI] + Simple.Terminated(target)) == Received(PITarget(d, target))
  {
    var d1 := InDefault(d);
    OpenByte(true, d, Default);
    Single(true, d, Default, d1);
    PIOpen(true, d1);
    var d2 := InPI(d);
    Single(true, d1, PI, d2);
    Chain(true, d, [Default], d1, [PI], d2);
    CollectText(true, d2, target);
    var f := Filled(d2, target);
    Chain(true, d, [Default, PI], d2, target, f);
    PIMiddle(true, f);
    Single(true, f, EndOfBlock, PITarget(d, target));
    Chain(true, d, [Default, PI] + target, f, [EndOfBlock], PITarget(d, target));
    assert [Default, PI] + Simple.Terminated(target) == [Default, PI] + target + [EndOfBlock];
  }

  lemma PITargetHolds(d: AdaptiveDecoder, target: Text)
    requires PrologIdle(d) && RT.Short(target)
    ensures Holding(PITarget(d, target), target + [EndOfBlock])
    ensures Frame(PITarget(d, target)) == Frame(d).(state := DefaultState, inComment := false, inPI := 1)
  {
    ResetFit(InDefault(d).(inPI := 2));
    FilledHolds(InPI(d), [], target);
    assert [] + target == target;
    var f := Filled(InPI(d), target).(inPI := 1);
    assert PITarget(d, target).raw[..|target| + 1] == f.raw[..|target|] + [EndOfBlock];
  }

  /** The buffer when the data's EndOfBlock comes: target, zero, data; the two strings read back. */
  lemma PIBuffer(x: AdaptiveDecoder, target: Text, data: Text)
    requires Holding(x, target + [EndOfBlock] + data) && x.length < |x.raw| && XmlText(target) && XmlText(data)
    ensures CString(x.raw[x.length := 0], 0) == Some(target)
    ensures CString(x.raw[x.length := 0], |target| + 1) == Some(data)
  {
    var s := x.raw[x.length := 0];
    assert s[..x.length] == x.raw[..x.length];
    TwoStrings(s, target, data);
  }

  /** Two zero-terminated strings one after the other. */
  lemma TwoStrings(s: seq<Byte>, target: Text, data: Text)
    requires |target| + 1 + |data| < |s| && s[..|target| + 1 + |data|] == target + [EndOfBlock] + data
    requires s[|target| + 1 + |data|] == 0 && XmlText(target) && XmlText(data)
    ensures CString(s, 0) == Some(target) && CString(s, |target| + 1) == Some(data)
  {
    var n := |target|;
    var m := n + 1 + |data|;
    assert s[0..n] == target by {
      forall k | 0 <= k < n ensures s[k] == target[k] {
        assert s[k] == s[..m][k];
      }
    }
    assert s[n] == 0 by {
      assert s[n] == s[..m][n];
    }
    assert s[n + 1..m] == data by {
      forall k | 0 <= k < |data| ensures s[n + 1 + k] == data[k] {
        assert s[n + 1 + k] == s[..m][n + 1 + k];
      }
    }
    assert NoZero(target) by {
      forall k | 0 <= k < n ensures target[k] != 0 {
        assert IsXmlByte(target[k]);
      }
    }
    assert NoZero(data) by {
      forall k | 0 <= k < |data| ensures data[k] != 0 {
        assert IsXmlByte(data[k]);
      }
    }
    CStringAt(s, 0, n);
    CStringAt(s, n + 1, m);
  }

  /** A byte appended to a buffer holding u. */
  lemma AppendedHolds(x: AdaptiveDecoder, u: Text, c: Byte)
    requires Holding(x, u) && x.length < |x.raw|
    ensures Holding(Appended(x, c), u + [c])
    ensures Frame(Appended(x, c)) == Frame(x).(inProlog := x.inProlog && x.state != NewElementState)
  {
    assert Appended(x, c).raw[..|u| + 1] == x.raw[..|u|] + [c];
  }

  /** The decoder as the data's EndOfBlock comes. */
  lemma PIHolds(d: AdaptiveDecoder, target: Text, data: Text)
    requires PrologIdle(d) && RT.Short(target) && XmlText(data) && |target| + |data| + 2 <= BufferSize
    ensures Holding(Filled(PITarget(d, target), data), target + [EndOfBlock] + data)
    ensures Frame(Filled(PITarget(d, target), data)) == Frame(d).(state := DefaultState, inComment := false, inPI := 1)
    ensures CString(Filled(PITarget(d, target), data).raw[|target| + 1 + |data| := 0], 0) == Some(target)
    ensures CString(Filled(PITarget(d, target), data).raw[|target| + 1 + |data| := 0], |target| + 1) == Some(data)
  {
    PITargetHolds(d, target);
    FilledHolds(PITarget(d, target), target + [EndOfBlock], data);
    PIBuffer(Filled(PITarget(d, target), data), target, data);
  }

  lemma PISteps(d: AdaptiveDecoder, target: Text, data: Text) returns (f: AdaptiveDecoder)
    requires PrologIdle(d) && RT.Short(target) && XmlText(data) && |target| + |data| + 2 <= BufferSize
    ensures f == Filled(PITarget(d, target), data)
    ensures DeliverOf(true, d, [Default, PI] + Simple.Terminated(target) + data + [EndOfBlock])
      == Received(Reset(Appended(f.(inPI := 0), EndOfBlock).(emitted := f.emitted + [Sax(PISax(Some(target), data))])))
  {
    PIFirst(d, target);
    var g := PITarget(d, target);
    PIReady(d, target, data);
    CollectText(true, g, data);
    f := Filled(g, data);
    Chain(true, d, [Default, PI] + Simple.Terminated(target), g, data, f);
    PIClose(f, target, data);
    var h := Reset(Appended(f.(inPI := 0), EndOfBlock).(emitted := f.emitted + [Sax(PISax(Some(target), data))]));
    Single(true, f, EndOfBlock, h);
    Chain(true, d, [Default, PI] + Simple.Terminated(target) + data, f, [EndOfBlock], h);
  }

  /** What the steps of a processing instruction need of the decoder after its target, and after its data. */
  lemma PIReady(d: AdaptiveDecoder, target: Text, data: Text)
    requires PrologIdle(d) && RT.Short(target) && XmlText(data) && |target| + |data| + 2 <= BufferSize
    ensures Collecting(PITarget(d, target)) && |PITarget(d, target).raw| == BufferSize
    ensures PITarget(d, target).length + |data| < BufferSize
    ensures var f := Filled(PITarget(d, target), data);
      && f.state == DefaultState && f.inProlog && !f.inComment && f.inPI == 1 && f.length < |f.raw|
      && CString(f.raw[f.length := 0], 0) == Some(target) && CString(f.raw[f.length := 0], |target| + 1) == Some(data)
  {
    PITargetHolds(d, target);
    PIFacts(d, PITarget(d, target));
    PIHolds(d, target, data);
    PIFacts(d, Filled(PITarget(d, target), data));
  }

  /** The decoder after a processing instruction is idle, one event further. */
  lemma PIDone(d: AdaptiveDecoder, target: Text, data: Text, ev: seq<Decoded>)
    requires PrologIdle(d) && RT.Short(target) && XmlText(data) && |target| + |data| + 2 <= BufferSize
    ensures var f := Filled(PITarget(d, target), data);
      && Fit(Reset(Appended(f.(inPI := 0), EndOfBlock).(emitted := f.emitted + ev)))
      && Frame(Reset(Appended(f.(inPI := 0), EndOfBlock).(emitted := f.emitted + ev))) == Frame(d).(emitted := d.emitted + ev)
  {
    var f := Filled(PITarget(d, target), data);
    PIHolds(d, target, data);
    var x := Appended(f.(inPI := 0), EndOfBlock);
    AppendedHolds(f.(inPI := 0), target + [EndOfBlock] + data, EndOfBlock);
    MarkupDone(d, x, target + [EndOfBlock] + data + [EndOfBlock], ev);
    assert x.(inComment := false, inPI := 0, emitted := x.emitted + ev) == x.(emitted := f.emitted + ev);
  }

  lemma PIFacts(d: AdaptiveDecoder, f: AdaptiveDecoder)
    requires Frame(f) == Frame(d).(state := DefaultState, inComment := false, inPI := 1) && d.inProlog
    ensures f.state == DefaultState && f.inProlog && !f.inComment && f.inPI == 1
  {
    assert f.state == Frame(f).state && f.inProlog == Frame(f).inProlog;
    assert f.inComment == Frame(f).inComment && f.inPI == Frame(f).inPI;
  }

  /** A processing instruction of the prolog with a target is read back by the corrected decoder; null data comes back empty. */
  lemma PIRead(d: AdaptiveDecoder, target: Text, data: Option<Text>) returns (e: AdaptiveDecoder)
    requires PrologIdle(d) && RT.Short(target) && RT.ShortOpt(data) && |target| + |Body(data)| + 2 <= BufferSize
    ensures DeliverOf(true, d, [Default, PI] + Simple.Terminated(target) + Simple.OrEnd(data)) == Received(e)
    ensures Fit(e) && Frame(e) == Frame(d).(emitted := d.emitted + [Sax(PISax(Some(target), Body(data)))])
  {
    var t := Body(data);
    assert [Default, PI] + Simple.Terminated(target) + Simple.OrEnd(data) == [Default, PI] + Simple.Terminated(target) + t + [EndOfBlock];
    var f := PISteps(d, target, t);
    PIDone(d, target, t, [Sax(PISax(Some(target), t))]);
    e := Reset(Appended(f.(inPI := 0), EndOfBlock).(emitted := f.emitted + [Sax(PISax(Some(target), t))]));
  }

  // ---------------------------------------------------------------------
  // The events of the prolog
  // ---------------------------------------------------------------------

  /** What manageEvent appends for an event. */
  function Sent(e: AdaptiveEncoder, ev: XmlEvent): seq<Byte>
    requires Valid(e)
  {
    var r := ManageEventOf(e, ev).e;
    r.out[|e.out|..]
  }

  /** The symbols of an event of the prolog, as the decoder reads them. */
  function PrologSymbols(ev: XmlEvent): seq<Byte>
  {
    match ev
    case XmlDeclEvent(version, encoding, standalone) => XmlDeclSymbols(Body(version), encoding, standalone)
    case StartDoctypeEvent(name, systemId, publicId, internal) => DoctypeSymbols(name, systemId, publicId, internal)
    case EndDoctypeEvent => [Doctype]
    case EntityDeclEvent(name, parameter, value, systemId, publicId, notation) =>
      EntitySymbols(name, parameter, value, systemId, publicId, notation)
    case NotationDeclEvent(name, systemId, publicId) => NotationSymbols(name, systemId, publicId)
    case DefaultEvent(data) => [Default] + Simple.Terminated(data)
    case CommentEvent(comment) => [Default, Comment] + Simple.Terminated(Body(comment))
    case PIEvent(target, data) => [Default, PI] + Simple.Terminated(Body(target)) + Simple.OrEnd(data)
    case _ => []
  }

  /** An encoding the codecs know and can suggest an alphabet size for: the XML declaration is accepted. */
  predicate KnownEncoding(encoding: Option<Text>)
  {
    var mib := TextCodecs.GetMIB(if encoding.Some? then Some(Simple.AsString(encoding.value)) else None);
    mib.Ok? && TextCodecs.SuggestAlphabetBaseSize(mib.value).Ok?
  }

  /**
   * The events of the prolog the decoder reads back: a declaration with
   * short strings (an XML declaration with a version, and an encoding the
   * codecs know; a doctype start outside a doctype and its end inside one),
   * short default data, and, for the corrected decoder, a comment and a
   * processing instruction with a target.
   */
  predicate PrologDecodable(fixed: bool, inDoctype: bool, ev: XmlEvent)
  {
    match ev
    case XmlDeclEvent(version, encoding, _) =>
      version.Some? && RT.Short(version.value) && RT.ShortOpt(encoding) && KnownEncoding(encoding)
    case StartDoctypeEvent(name, systemId, publicId, _) =>
      !inDoctype && RT.ShortOpt(name) && RT.ShortOpt(systemId) && RT.ShortOpt(publicId)
    case EndDoctypeEvent => inDoctype
    case EntityDeclEvent(name, _, value, systemId, publicId, notation) =>
      RT.ShortOpt(name) && RT.ShortOpt(value) && RT.ShortOpt(systemId) && RT.ShortOpt(publicId) && RT.ShortOpt(notation)
    case NotationDeclEvent(name, systemId, publicId) => RT.ShortOpt(name) && RT.ShortOpt(systemId) && RT.ShortOpt(publicId)
    case DefaultEvent(data) => RT.Short(data)
    case CommentEvent(comment) => fixed && comment.Some? && RT.Short(comment.value)
    case PIEvent(target, data) =>
      fixed && target.Some? && RT.Short(target.value) && RT.ShortOpt(data) && |target.value| + |Body(data)| + 2 <= BufferSize
    case _ => false
  }

  /** The calls the decoder makes for an event of the prolog. */
  function PrologSax(ev: XmlEvent): seq<Decoded>
  {
    match ev
    case XmlDeclEvent(version, encoding, standalone) =>
      [Sax(XmlDeclSax(RT.NonNull(version), RT.NonNull(encoding), RT.StandaloneRead(standalone)))]
    case StartDoctypeEvent(name, systemId, publicId, internal) => [Sax(StartDoctypeSax(RT.NonNull(name), systemId, publicId, internal))]
    case EndDoctypeEvent => [Sax(EndDoctypeSax)]
    case EntityDeclEvent(name, parameter, value, systemId, publicId, notation) =>
      [Sax(EntityDeclSax(RT.NonNull(name), parameter, value, systemId, publicId, notation))]
    case NotationDeclEvent(name, systemId, publicId) => [Sax(NotationDeclSax(RT.NonNull(name), systemId, publicId))]
    case DefaultEvent(data) => [Sax(DefaultSax(data))]
    case CommentEvent(comment) => CommentCalls(Body(comment))
    case PIEvent(target, data) => [Sax(PISax(target, Body(data)))]
    case _ => []
  }

  /** Whether the decoder is inside a doctype after an event. */
  function DoctypeAfter(inDoctype: bool, ev: XmlEvent): bool
  {
    if ev.StartDoctypeEvent? then true else if ev.EndDoctypeEvent? then false else inDoctype
  }

  /** manageEvent appends the symbols the decoder reads for an event of the prolog. */
  lemma SentSymbols(fixed: bool, e: AdaptiveEncoder, inDoctype: bool, ev: XmlEvent)
    requires Valid(e) && e.modelerStack == [] && PrologDecodable(fixed, inDoctype, ev)
    ensures ManageEventOf(e, ev).e.out == e.out + PrologSymbols(ev) && ManageEventOf(e, ev).e.modelerStack == []
    ensures Sent(e, ev) == PrologSymbols(ev)
  {
    if ev.DefaultEvent? || ev.CommentEvent? || ev.PIEvent? {
      ValidMovable(e, []);
      assert ManageEventOf(e, ev) == MarkupOf(e, ev) == ManageOtherEventOf(e, ev);
      MarkupSent(e, ev);
    } else {
      assert ManageEventOf(e, ev) == DeclarationOf(e, ev) == ManageOtherEventOf(e, ev);
      DeclarationSent(fixed, e, inDoctype, ev);
    }
    assert (e.out + PrologSymbols(ev))[|e.out|..] == PrologSymbols(ev);
  }

  lemma MarkupSent(e: AdaptiveEncoder, ev: XmlEvent)
    requires e.modelerStack == [] && (ev.DefaultEvent? || (ev.CommentEvent? && ev.comment.Some?) || (ev.PIEvent? && ev.target.Some?))
    ensures MarkupOf(e, ev).e.out == e.out + PrologSymbols(ev)
  {
    match ev {
      case DefaultEvent(data) =>
      case CommentEvent(comment) => CommentSent(e, comment.value);
      case PIEvent(target, data) => PISent(e, target.value, data);
    }
  }

  lemma CommentSent(e: AdaptiveEncoder, t: Text)
    requires e.modelerStack == []
    ensures MarkupOf(e, CommentEvent(Some(t))).e.out == e.out + ([Default, Comment] + Simple.Terminated(t))
  {
    assert e.out + [Default] + ([Comment] + Simple.Terminated(t)) == e.out + ([Default, Comment] + Simple.Terminated(t));
  }

  lemma PISent(e: AdaptiveEncoder, target: Text, data: Option<Text>)
    requires e.modelerStack == []
    ensures MarkupOf(e, PIEvent(Some(target), data)).e.out == e.out + ([Default, PI] + Simple.Terminated(target) + Simple.OrEnd(data))
  {
    assert e.out + [Default] + ([PI] + Simple.Terminated(target) + Simple.OrEnd(data))
        == e.out + ([Default, PI] + Simple.Terminated(target) + Simple.OrEnd(data));
  }

  lemma DeclarationSent(fixed: bool, e: AdaptiveEncoder, inDoctype: bool, ev: XmlEvent)
    requires PrologDecodable(fixed, inDoctype, ev) && !ev.DefaultEvent? && !ev.CommentEvent? && !ev.PIEvent?
    ensures DeclarationOf(e, ev).e.out == e.out + PrologSymbols(ev)
  {
    match ev {
      case XmlDeclEvent(version, encoding, standalone) =>
        XmlDeclBytes(version.value, encoding, standalone);
      case StartDoctypeEvent(name, systemId, publicId, internal) =>
        DoctypeBytes(name, systemId, publicId, internal);
      case EndDoctypeEvent =>
      case EntityDeclEvent(name, parameter, value, systemId, publicId, notation) =>
        EntityBytes(name, parameter, value, systemId, publicId, notation);
      case NotationDeclEvent(name, systemId, publicId) =>
        NotationBytes(name, systemId, publicId);
    }
  }

  lemma StringsOf(a: Option<Text>, rest: seq<Option<Text>>, marked: bool)
    ensures Strings([a] + rest, marked) == Written(a, marked) + Strings(rest, marked)
  {
    assert ([a] + rest)[1..] == rest;
  }

  lemma XmlDeclBytes(version: Text, encoding: Option<Text>, standalone: int)
    ensures XmlDeclSymbols(version, encoding, standalone)
      == [XmlDecl] + Simple.Terminated(version) + Simple.OrEnd(encoding) + [Simple.Standalone(standalone)]
  {
    StringsOf(encoding, [], false);
    StringsOf(Some(version), [encoding], false);
    assert [Some(version), encoding] == [Some(version)] + [encoding] && [encoding] == [encoding] + [];
  }

  lemma DoctypeBytes(name: Option<Text>, systemId: Option<Text>, publicId: Option<Text>, internal: bool)
    ensures DoctypeSymbols(name, systemId, publicId, internal) == [Doctype] + Simple.OrEnd(name) + Marked(publicId) + Marked(systemId)
      + [if internal then HasInternalSubsetYes else HasInternalSubsetNo]
  {
    StringsOf(name, [], false);
    StringsOf(systemId, [], true);
    StringsOf(publicId, [systemId], true);
    assert [name] == [name] + [] && [systemId] == [systemId] + [] && [publicId, systemId] == [publicId] + [systemId];
  }

  lemma EntityBytes(name: Option<Text>, parameter: bool, value: Option<Text>, systemId: Option<Text>,
                    publicId: Option<Text>, notation: Option<Text>)
    ensures EntitySymbols(name, parameter, value, systemId, publicId, notation)
      == [EntityDecl] + Simple.OrEnd(name) + Marked(value) + Marked(systemId) + Marked(publicId)
        + Marked(notation) + [if parameter then IsParameterEntityYes else IsParameterEntityNo]
  {
    StringsOf(name, [], false);
    assert [name] == [name] + [];
    MarkedFour(value, systemId, publicId, notation);
    Regroup([EntityDecl], Simple.OrEnd(name), Marked(value), Marked(systemId), Marked(publicId), Marked(notation),
            [if parameter then IsParameterEntityYes else IsParameterEntityNo]);
  }

  lemma MarkedFour(a: Option<Text>, b: Option<Text>, c: Option<Text>, d: Option<Text>)
    ensures Strings([a, b, c, d], true) == Marked(a) + (Marked(b) + (Marked(c) + Marked(d)))
  {
    StringsOf(d, [], true);
    StringsOf(c, [d], true);
    StringsOf(b, [c, d], true);
    StringsOf(a, [b, c, d], true);
    assert [d] == [d] + [] && [c, d] == [c] + [d] && [b, c, d] == [b] + [c, d] && [a, b, c, d] == [a] + [b, c, d];
    assert Marked(d) + [] == Marked(d);
  }

  lemma Regroup(a: seq<Byte>, b: seq<Byte>, c: seq<Byte>, d: seq<Byte>, e: seq<Byte>, f: seq<Byte>, g: seq<Byte>)
    ensures a + b + (c + (d + (e + f))) + g == a + b + c + d + e + f + g
  {
  }

  lemma NotationBytes(name: Option<Text>, systemId: Option<Text>, publicId: Option<Text>)
    ensures NotationSymbols(name, systemId, publicId) == [NotationDecl] + Simple.OrEnd(name) + Marked(systemId) + Marked(publicId)
  {
    StringsOf(name, [], false);
    StringsOf(systemId, [], true);
    assert [name] == [name] + [] && [systemId] == [systemId] + [];
  }

  /** A fit decoder with an idle decoder's fields, but for the doctype flag and what was emitted, is idle. */
  lemma IdleAgain(d: AdaptiveDecoder, e: AdaptiveDecoder, inDoctype: bool, emitted: seq<Decoded>)
    requires PrologIdle(d) && Fit(e) && Frame(e) == Frame(d).(inDoctype := inDoctype, emitted := emitted)
    ensures PrologIdle(e) && e.inDoctype == inDoctype && e.emitted == emitted
  {
    assert e.state == Frame(e).state && e.queue == Frame(e).queue && e.inProlog == Frame(e).inProlog;
    assert e.inAttrValue == Frame(e).inAttrValue && e.inComment == Frame(e).inComment && e.inPI == Frame(e).inPI;
    assert e.inDoctype == Frame(e).inDoctype && e.emitted == Frame(e).emitted;
  }

  /** The symbols of an event of the prolog come back as its SAX calls; the decoder is idle again. */
  lemma PrologEventRead(fixed: bool, d: AdaptiveDecoder, ev: XmlEvent) returns (r: AdaptiveDecoder)
    requires PrologIdle(d) && PrologDecodable(fixed, d.inDoctype, ev)
    ensures DeliverOf(fixed, d, PrologSymbols(ev)) == Received(r)
    ensures Fit(r) && Frame(r) == Frame(d).(inDoctype := DoctypeAfter(d.inDoctype, ev), emitted := d.emitted + PrologSax(ev))
  {
    if ev.DefaultEvent? || ev.CommentEvent? || ev.PIEvent? {
      r := MarkupEventRead(fixed, d, ev);
    } else {
      r := DeclarationRead(fixed, d, ev);
    }
  }

  lemma MarkupEventRead(fixed: bool, d: AdaptiveDecoder, ev: XmlEvent) returns (r: AdaptiveDecoder)
    requires PrologIdle(d)
    requires ev.DefaultEvent? ==> RT.Short(ev.defaultData)
    requires ev.CommentEvent? ==> fixed && ev.comment.Some? && RT.Short(ev.comment.value)
    requires ev.PIEvent? ==>
      fixed && ev.target.Some? && RT.Short(ev.target.value) && RT.ShortOpt(ev.piData) && |ev.target.value| + |Body(ev.piData)| + 2 <= BufferSize
    requires ev.DefaultEvent? || ev.CommentEvent? || ev.PIEvent?
    ensures DeliverOf(fixed, d, PrologSymbols(ev)) == Received(r)
    ensures Fit(r) && Frame(r) == Frame(d).(inDoctype := DoctypeAfter(d.inDoctype, ev), emitted := d.emitted + PrologSax(ev))
  {
    match ev {
      case DefaultEvent(data) => r := DefaultRead(fixed, d, data);
      case CommentEvent(comment) => r := CommentRead(d, comment.value);
      case PIEvent(target, data) => r := PIRead(d, target.value, data);
    }
  }

  lemma DeclarationRead(fixed: bool, d: AdaptiveDecoder, ev: XmlEvent) returns (r: AdaptiveDecoder)
    requires PrologIdle(d) && PrologDecodable(fixed, d.inDoctype, ev) && !ev.DefaultEvent? && !ev.CommentEvent? && !ev.PIEvent?
    ensures DeliverOf(fixed, d, PrologSymbols(ev)) == Received(r)
    ensures Fit(r) && Frame(r) == Frame(d).(inDoctype := DoctypeAfter(d.inDoctype, ev), emitted := d.emitted + PrologSax(ev))
  {
    match ev {
      case XmlDeclEvent(version, encoding, standalone) => r := XmlDeclRead(fixed, d, version.value, encoding, standalone);
      case StartDoctypeEvent(name, systemId, publicId, internal) => r := DoctypeRead(fixed, d, name, systemId, publicId, internal);
      case EndDoctypeEvent => r := EndDoctypeRead(fixed, d);
      case EntityDeclEvent(name, parameter, value, systemId, publicId, notation) =>
        r := EntityDeclRead(fixed, d, name, parameter, value, systemId, publicId, notation);
      case NotationDeclEvent(name, systemId, publicId) => r := NotationDeclRead(fixed, d, name, systemId, publicId);
    }
  }

  /** manageEvent called on each event in turn. */
  function ManageAll(e: AdaptiveEncoder, evs: seq<XmlEvent>): (r: AdaptiveEncoder)
    requires Valid(e)
    ensures Valid(r)
    decreases |evs|
  {
    if evs == [] then e
    else
      ManageEventValid(e, evs[0]);
      ManageAll(ManageEventOf(e, evs[0]).e, evs[1..])
  }

  /** Events of the prolog the decoder reads back, one after the other. */
  predicate PrologDecodableAll(fixed: bool, inDoctype: bool, evs: seq<XmlEvent>)
    decreases |evs|
  {
    evs == [] || (PrologDecodable(fixed, inDoctype, evs[0]) && PrologDecodableAll(fixed, DoctypeAfter(inDoctype, evs[0]), evs[1..]))
  }

  function PrologSymbolsAll(evs: seq<XmlEvent>): seq<Byte>
    decreases |evs|
  {
    if evs == [] then [] else PrologSymbols(evs[0]) + PrologSymbolsAll(evs[1..])
  }

  function PrologSaxAll(evs: seq<XmlEvent>): seq<Decoded>
    decreases |evs|
  {
    if evs == [] then [] else PrologSax(evs[0]) + PrologSaxAll(evs[1..])
  }

  function DoctypeAfterAll(inDoctype: bool, evs: seq<XmlEvent>): bool
    decreases |evs|
  {
    if evs == [] then inDoctype else DoctypeAfterAll(DoctypeAfter(inDoctype, evs[0]), evs[1..])
  }

  /** The encoder appends the symbols of the events in turn; no element is opened. */
  lemma {:induction false} ManageAllOut(fixed: bool, e: AdaptiveEncoder, inDoctype: bool, evs: seq<XmlEvent>)
    requires Valid(e) && e.modelerStack == [] && PrologDecodableAll(fixed, inDoctype, evs)
    ensures ManageAll(e, evs).out == e.out + PrologSymbolsAll(evs) && ManageAll(e, evs).modelerStack == []
    decreases |evs|
  {
    if evs == [] {
      assert e.out + [] == e.out;
    } else {
      ManageEventValid(e, evs[0]);
      var e1 := ManageEventOf(e, evs[0]).e;
      SentSymbols(fixed, e, inDoctype, evs[0]);
      ManageAllOut(fixed, e1, DoctypeAfter(inDoctype, evs[0]), evs[1..]);
      ManageAllStep(e, evs);
      SymbolsStep(e.out, evs);
    }
  }

  lemma ManageAllStep(e: AdaptiveEncoder, evs: seq<XmlEvent>)
    requires Valid(e) && evs != [] && Valid(ManageEventOf(e, evs[0]).e)
    ensures ManageAll(e, evs) == ManageAll(ManageEventOf(e, evs[0]).e, evs[1..])
  {
  }

  lemma SymbolsStep(out: seq<Byte>, evs: seq<XmlEvent>)
    requires evs != []
    ensures out + PrologSymbols(evs[0]) + PrologSymbolsAll(evs[1..]) == out + PrologSymbolsAll(evs)
  {
  }

  /**
   * Events of the prolog come back: their symbols, delivered to an idle
   * decoder, come back as their SAX calls in order, and leave the decoder
   * idle.
   */
  lemma {:induction false} PrologRead(fixed: bool, d: AdaptiveDecoder, evs: seq<XmlEvent>) returns (r: AdaptiveDecoder)
    requires PrologIdle(d) && PrologDecodableAll(fixed, d.inDoctype, evs)
    ensures DeliverOf(fixed, d, PrologSymbolsAll(evs)) == Received(r)
    ensures Fit(r) && Frame(r) == Frame(d).(inDoctype := DoctypeAfterAll(d.inDoctype, evs), emitted := d.emitted + PrologSaxAll(evs))
    decreases |evs|
  {
    if evs == [] {
      assert d.emitted + [] == d.emitted;
      r := d;
    } else {
      var d1 := PrologEventRead(fixed, d, evs[0]);
      IdleAgain(d, d1, DoctypeAfter(d.inDoctype, evs[0]), d.emitted + PrologSax(evs[0]));
      r := PrologRead(fixed, d1, evs[1..]);
      Chain(fixed, d, PrologSymbols(evs[0]), d1, PrologSymbolsAll(evs[1..]), r);
      FramesJoin(d, d1, r, DoctypeAfter(d.inDoctype, evs[0]), PrologSax(evs[0]),
                 DoctypeAfterAll(d1.inDoctype, evs[1..]), PrologSaxAll(evs[1..]));
    }
  }

  /** The fields after the first event and after the rest. */
  lemma FramesJoin(d: AdaptiveDecoder, d1: AdaptiveDecoder, r: AdaptiveDecoder, dt1: bool, es1: seq<Decoded>, dt2: bool, es2: seq<Decoded>)
    requires Frame(d1) == Frame(d).(inDoctype := dt1, emitted := d.emitted + es1)
    requires Frame(r) == Frame(d1).(inDoctype := dt2, emitted := d1.emitted + es2)
    ensures Frame(r) == Frame(d).(inDoctype := dt2, emitted := d.emitted + (es1 + es2))
  {
    assert d1.emitted == Frame(d1).emitted;
    assert d.emitted + es1 + es2 == d.emitted + (es1 + es2);
  }

  /**
   * The prolog round trip, from the start: what an encoder that has written
   * nothing and opened no element (the constructor's, by FreshStarts)
   * writes for the events, delivered one symbol per call to a decoder after
   * its first allocation, comes back as the events' SAX calls, and the
   * decoder is idle.
   */
  lemma PrologRoundTrip(fixed: bool, raw: seq<Byte>, e: AdaptiveEncoder, evs: seq<XmlEvent>) returns (r: AdaptiveDecoder)
    requires |raw| == BufferSize && Valid(e) && e.out == [] && e.modelerStack == [] && PrologDecodableAll(fixed, false, evs)
    ensures DeliverOf(fixed, Started(raw), ManageAll(e, evs).out) == Received(r)
    ensures r.emitted == PrologSaxAll(evs) && PrologIdle(r)
  {
    ManageAllOut(fixed, e, false, evs);
    assert [] + PrologSymbolsAll(evs) == PrologSymbolsAll(evs);
    StartedIdle(raw);
    r := PrologRead(fixed, Started(raw), evs);
    IdleAgain(Started(raw), r, DoctypeAfterAll(false, evs), [] + PrologSaxAll(evs));
    assert [] + PrologSaxAll(evs) == PrologSaxAll(evs);
  }

  /** The constructor's encoder has written nothing and opened no element. */
  lemma FreshStarts()
    ensures Valid(Fresh) && Fresh.out == [] && Fresh.modelerStack == []
  {
    FreshValid();
  }

  lemma StartedIdle(raw: seq<Byte>)
    requires |raw| == BufferSize
    ensures PrologIdle(Started(raw)) && Started(raw).emitted == [] && !Started(raw).inDoctype
  {
  }

  // ---------------------------------------------------------------------
  // Comments of the prolog as written
  // ---------------------------------------------------------------------

  /** As written, the EndOfBlock of an empty comment clears the buffer and leaves the Default state. */
  lemma EmptyCommentCloseAsWritten(f: AdaptiveDecoder)
    requires f.state == DefaultState && f.inProlog && f.inComment && f.length == 0
    ensures Feed(false, f, EndOfBlock) == Received(ResetBuffer(f.(inComment := false)))
  {
    assert Intercept(f, EndOfBlock) == Passed(f);
  }

  /** In the Default state the prolog's Doctype symbol is stored as data, though it sets inDoctype. */
  lemma DoctypeInDefault(fixed: bool, g: AdaptiveDecoder)
    requires g.state == DefaultState && g.inProlog && !g.inDoctype && !g.inComment && g.inPI == 0 && Fit(g)
    ensures Feed(fixed, g, Doctype) == Received(g.(inDoctype := true, raw := g.raw[0 := Doctype], length := 1))
  {
    assert Intercept(g, Doctype) == Passed(g.(inDoctype := true));
  }

  /**
   * As written, a comment of the prolog leaves the decoder in the Default
   * state, so the Doctype that follows an empty comment is stored as data:
   * the doctype never opens.  PrologCommentFixed is the corrected reading.
   */
  lemma PrologCommentAsWritten(d: AdaptiveDecoder) returns (x: AdaptiveDecoder)
    requires PrologIdle(d) && !d.inDoctype
    ensures DeliverOf(false, d, [Default, Comment, EndOfBlock, Doctype]) == Received(x)
    ensures x.state == DefaultState && x.inDoctype && Contents(x) == [Doctype] && x.emitted == d.emitted
  {
    var d1 := InDefault(d);
    OpenByte(false, d, Default);
    Single(false, d, Default, d1);
    CommentOpen(false, d1);
    var d2 := InComment(d);
    Single(false, d1, Comment, d2);
    Chain(false, d, [Default], d1, [Comment], d2);
    assert [Default] + [Comment] == [Default, Comment];
    EmptyCommentCloseAsWritten(d2);
    var g := ResetBuffer(d2.(inComment := false));
    Single(false, d2, EndOfBlock, g);
    Chain(false, d, [Default, Comment], d2, [EndOfBlock], g);
    assert [Default, Comment] + [EndOfBlock] == [Default, Comment, EndOfBlock];
    DoctypeInDefault(false, g);
    x := g.(inDoctype := true, raw := g.raw[0 := Doctype], length := 1);
    Single(false, g, Doctype, x);
    Chain(false, d, [Default, Comment, EndOfBlock], g, [Doctype], x);
    assert [Default, Comment, EndOfBlock] + [Doctype] == [Default, Comment, EndOfBlock, Doctype];
    assert x.raw[..1] == [Doctype];
  }

  /** The corrected decoder leaves the comment idle, and the Doctype that follows opens the doctype. */
  lemma PrologCommentFixed(d: AdaptiveDecoder) returns (x: AdaptiveDecoder)
    requires PrologIdle(d) && !d.inDoctype
    ensures DeliverOf(true, d, [Default, Comment, EndOfBlock, Doctype]) == Received(x)
    ensures x.state == DoctypeState && x.inDoctype && x.length == 0 && x.emitted == d.emitted
  {
    assert RT.Short([]);
    var e := CommentRead(d, []);
    assert [Default, Comment] + Simple.Terminated([]) == [Default, Comment, EndOfBlock];
    assert e.emitted == Frame(e).emitted == d.emitted + [] == d.emitted;
    assert e.inDoctype == Frame(e).inDoctype == d.inDoctype;
    OpenByte(true, e, Doctype);
    x := Opened(e, Doctype);
    Single(true, e, Doctype, x);
    Chain(true, d, [Default, Comment, EndOfBlock], e, [Doctype], x);
    assert [Default, Comment, EndOfBlock] + [Doctype] == [Default, Comment, EndOfBlock, Doctype];
  }

  /** As written, a non-empty comment's EndOfBlock hands on the buffer read as a C string. */
  lemma CommentCloseAsWritten(f: AdaptiveDecoder, s: Text)
    requires f.state == DefaultState && f.inProlog && f.inComment && f.length != 0 && CString(f.raw, 0) == Some(s)
    ensures Feed(false, f, EndOfBlock) == Received(ResetBuffer(f.(inComment := false, emitted := f.emitted + [Sax(CommentSax(s))])))
  {
    assert Intercept(f, EndOfBlock) == Passed(f);
  }

  lemma CommentStepsAsWritten(d: AdaptiveDecoder, t: Text) returns (f: AdaptiveDecoder)
    requires PrologIdle(d) && RT.Short(t)
    ensures f == Filled(InComment(d), t)
    ensures DeliverOf(false, d, [Default, Comment] + t) == Received(f)
  {
    var d1 := InDefault(d);
    OpenByte(false, d, Default);
    Single(false, d, Default, d1);
    CommentOpen(false, d1);
    var d2 := InComment(d);
    Single(false, d1, Comment, d2);
    Chain(false, d, [Default], d1, [Comment], d2);
    CollectText(false, d2, t);
    f := Filled(d2, t);
    Chain(false, d, [Default, Comment], d2, t, f);
  }

  /** The comment's bytes over a buffer whose stale bytes after them reach a zero at n read, as a C string, as the comment and those stale bytes. */
  lemma StaleRead(d: AdaptiveDecoder, t: Text, n: nat)
    requires PrologIdle(d) && RT.Short(t) && t != [] && |t| <= n < BufferSize && d.raw[n] == 0 && NoZero(d.raw[|t|..n])
    ensures CString(Filled(InComment(d), t).raw, 0) == Some(t + d.raw[|t|..n])
  {
    var s := Filled(InComment(d), t).raw;
    assert s == [] + t + d.raw[0 := 0][|t|..];
    assert s[0..n] == t + d.raw[|t|..n];
    assert NoZero(s[0..n]) by {
      forall k | 0 <= k < n
        ensures s[0..n][k] != 0
      {
        if k < |t| {
          assert s[0..n][k] == t[k] && IsXmlByte(t[k]);
        } else {
          assert s[0..n][k] == d.raw[|t|..n][k - |t|];
        }
      }
    }
    CStringAt(s, 0, n);
  }

  /**
   * As written, a comment of the prolog is handed on as its bytes and then
   * the stale bytes of the buffer up to the next zero, and the decoder stays
   * in the Default state.  CommentRead is the corrected reading.
   */
  lemma AdaptiveCommentOverRead(d: AdaptiveDecoder, t: Text, n: nat) returns (e: AdaptiveDecoder)
    requires PrologIdle(d) && RT.Short(t) && t != [] && |t| <= n < BufferSize && d.raw[n] == 0 && NoZero(d.raw[|t|..n])
    ensures DeliverOf(false, d, [Default, Comment] + Simple.Terminated(t)) == Received(e)
    ensures e.state == DefaultState && e.emitted == d.emitted + [Sax(CommentSax(t + d.raw[|t|..n]))]
  {
    var f := CommentStepsAsWritten(d, t);
    StaleRead(d, t, n);
    CommentCloseAsWritten(f, t + d.raw[|t|..n]);
    e := ResetBuffer(f.(inComment := false, emitted := f.emitted + [Sax(CommentSax(t + d.raw[|t|..n]))]));
    Single(false, f, EndOfBlock, e);
    Chain(false, d, [Default, Comment] + t, f, [EndOfBlock], e);
    assert [Default, Comment] + Simple.Terminated(t) == [Default, Comment] + t + [EndOfBlock];
  }

  /** The comment "hi" over the stale bytes "l" and 0 is handed on as "hil" as written. */
  lemma CommentHiAsWritten(d: AdaptiveDecoder, t: Text) returns (e: AdaptiveDecoder)
    requires PrologIdle(d) && d.raw[2] == 108 && d.raw[3] == 0 && t == [104, 105]
    ensures DeliverOf(false, d, [Default, Comment] + Simple.Terminated(t)) == Received(e)
    ensures e.emitted == d.emitted + [Sax(CommentSax([104, 105, 108]))]
  {
    assert d.raw[2..3] == [108];
    e := AdaptiveCommentOverRead(d, t, 3);
    assert t + d.raw[|t|..3] == [104, 105, 108];
  }

  // ---------------------------------------------------------------------
  // Character runs
  // ---------------------------------------------------------------------

  /** Outside the prolog, with no start tag waiting for its attributes, no section open and no NACK read: where a run may begin. */
  predicate RunReady(d: AdaptiveDecoder)
  {
    && Fit(d) && d.state == NoState && !d.inProlog && !d.inAttr && !d.inAttrValue
    && (d.attrPos != 0 || d.queue == []) && !d.inComment && !d.inCDATA && d.inPI == 0
    && !d.readingNackData && !d.nackEndedInCharacters
  }

  /** What a character run is handed on as at its EndOfBlock: nothing when it is empty. */
  function RunCalls(t: Text): seq<Decoded>
  {
    if t == [] then [] else [Sax(CharacterDataSax(t))]
  }

  /** The decoder once Characters has been read: the models are replayed up to a character node. */
  function InRun(d: AdaptiveDecoder): AdaptiveDecoder
  {
    d.(state := CharactersState, attrPos := 1, emitted := d.emitted + [CharactersReplay(true, true)])
  }

  /** Characters enters the Characters state and replays the models, moving forward and appending a character node. */
  lemma RunOpen(fixed: bool, d: AdaptiveDecoder)
    requires RunReady(d)
    ensures Feed(fixed, d, Characters) == Received(InRun(d))
  {
    assert FinishNoAttributes(d.(state := CharactersState)) == Some(d.(state := CharactersState));
    assert Intercept(d, Characters) == CharactersMark(d);
  }

  /** EndOfBlock ends the run: the bytes in use are handed on and the buffer and state reset. */
  lemma RunClose(fixed: bool, f: AdaptiveDecoder)
    requires f.state == CharactersState && !f.inProlog && !f.inAttrValue && !f.inComment && !f.inCDATA && f.inPI == 0
    requires |f.raw| == BufferSize && f.length < BufferSize
    ensures Feed(fixed, f, EndOfBlock).Received?
    ensures Fit(Feed(fixed, f, EndOfBlock).d)
    ensures Frame(Feed(fixed, f, EndOfBlock).d) == Frame(f).(state := NoState, emitted := f.emitted + RunCalls(Contents(f)))
  {
    assert Intercept(f, EndOfBlock) == Passed(f);
    assert f.length == 0 <==> Contents(f) == [];
  }

  lemma RunSteps(fixed: bool, d: AdaptiveDecoder, t: Text) returns (f: AdaptiveDecoder)
    requires RunReady(d) && RT.Short(t)
    ensures f == Filled(InRun(d), t)
    ensures DeliverOf(fixed, d, [Characters] + t) == Received(f)
  {
    RunOpen(fixed, d);
    Single(fixed, d, Characters, InRun(d));
    CollectText(fixed, InRun(d), t);
    f := Filled(InRun(d), t);
    Chain(fixed, d, [Characters], InRun(d), t, f);
  }

  /**
   * A character run as the encoder writes it, Characters, the data and
   * EndOfBlock, comes back as the replay of the models and the data.
   */
  lemma RunRead(fixed: bool, d: AdaptiveDecoder, t: Text) returns (e: AdaptiveDecoder)
    requires RunReady(d) && RT.Short(t)
    ensures DeliverOf(fixed, d, [Characters] + Simple.Terminated(t)) == Received(e)
    ensures Fit(e) && Frame(e) == Frame(d).(attrPos := 1, emitted := d.emitted + [CharactersReplay(true, true)] + RunCalls(t))
  {
    var f := RunSteps(fixed, d, t);
    FilledHolds(InRun(d), [], t);
    assert [] + t == t;
    assert Contents(f) == t;
    RunClose(fixed, f);
    e := Feed(fixed, f, EndOfBlock).d;
    Single(fixed, f, EndOfBlock, e);
    Chain(fixed, d, [Characters] + t, f, [EndOfBlock], e);
    assert [Characters] + Simple.Terminated(t) == [Characters] + t + [EndOfBlock];
    assert f.emitted == Frame(f).emitted;
  }
}
