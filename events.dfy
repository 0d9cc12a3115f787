/**
 * The recorded event model: the six kinds of event, the helpers that build and
 * combine them, the field validators, and the `Events` list wrapper.
 *
 * Timestamps are integers (microseconds); screenshots are opaque values that no
 * operation looks inside.
 */
module Events {
  import opened Wrappers

  /** A point in time, in microseconds. */
  type Timestamp = int

  /** A screen location, in pixels. */
  datatype Point = Point(x: int, y: int)

  /** A scroll amount along each axis. */
  datatype PointChange = PointChange(dx: int, dy: int)

  /** An in-memory image or the path of an image saved to disk. */
  datatype Screenshot = Image(id: nat) | SavedPath(path: string)

  datatype Button = Left | Middle | Right

  /** The values a mouse-button event's action may take once validated. */
  datatype MouseAction = MousePress | MouseRelease | MouseClick

  datatype KeyAction = KeyPress | KeyRelease

  /** A key: a character or a named special key. */
  datatype Key = Char(c: char) | Special(name: string)

  /** The click count of a click event is a positive integer. */
  type PositiveInt = n: int | n >= 1 witness 1

  /**
   * One recorded event. `Click` is the specialisation of a mouse-button event whose
   * action is fixed to "click"; `IsMouseButton` holds of both.
   */
  datatype Event =
    | StateSnapshot(timestamp: Timestamp, screen: Screenshot, location: Point)
    | MouseButton(timestamp: Timestamp, screenshot: Option<Screenshot>, location: Point,
                  action: MouseAction, button: Button)
    | Click(timestamp: Timestamp, screenshot: Option<Screenshot>, location: Point,
            button: Button, nClicks: PositiveInt, lastTimestamp: Option<Timestamp>)
    | Scroll(timestamp: Timestamp, screenshot: Option<Screenshot>, location: Point,
             scroll: PointChange, lastTimestamp: Option<Timestamp>)
    | Keyboard(timestamp: Timestamp, screenshot: Option<Screenshot>, keyAction: KeyAction, key: Key)
    | Write(timestamp: Timestamp, screenshot: Option<Screenshot>, keys: seq<Key>,
            lastTimestamp: Option<Timestamp>)

  /** Whether `e` is a mouse-button event; a click event is one too. */
  predicate IsMouseButton(e: Event) {
    e.MouseButton? || e.Click?
  }

  /** The action of a mouse-button event; for a click event it is always "click". */
  function MouseActionOf(e: Event): MouseAction
    requires IsMouseButton(e)
  {
    if e.Click? then MouseClick else e.action
  }

  /** The event kinds that may span an interval of time and so carry a last timestamp. */
  predicate HasLastTimestamp(e: Event) {
    e.Click? || e.Scroll? || e.Write?
  }

  /** The end of a span that starts at `first` and, when present, ends at `last`. */
  function EndOf(first: Timestamp, last: Option<Timestamp>): Timestamp {
    if last.Some? then last.value else first
  }

  /** When the event ended: its last timestamp if it has one, its timestamp otherwise. */
  function LastTimestampOrFirst(e: Event): (t: Timestamp)
    requires HasLastTimestamp(e)
    ensures e.lastTimestamp.Some? ==> t == e.lastTimestamp.value
    ensures e.lastTimestamp.None? ==> t == e.timestamp
  {
    EndOf(e.timestamp, e.lastTimestamp)
  }

  function Min(a: int, b: int): int {
    if a <= b then a else b
  }

  function Max(a: int, b: int): int {
    if a >= b then a else b
  }

  /** The largest element of a non-empty sequence. */
  function MaxOf(s: seq<int>): (m: int)
    requires s != []
    ensures m in s
    ensures forall x :: x in s ==> x <= m
  {
    if |s| == 1 then s[0]
    else
      var rest := MaxOf(s[1..]);
      assert forall x :: x in s ==> x == s[0] || x in s[1..];
      Max(s[0], rest)
  }

  /**
   * The candidates for the last timestamp of two combined spans: both timestamps,
   * then each last timestamp that is present.
   */
  function EndCandidates(t1: Timestamp, last1: Option<Timestamp>, t2: Timestamp, last2: Option<Timestamp>)
    : (r: seq<Timestamp>)
    ensures 2 <= |r| <= 4 && r[0] == t1 && r[1] == t2
    ensures last1.Some? ==> last1.value in r
    ensures last2.Some? ==> last2.value in r
    ensures forall x :: x in r ==>
      x == t1 || x == t2 || (last1.Some? && x == last1.value) || (last2.Some? && x == last2.value)
  {
    [t1, t2] + (if last1.Some? then [last1.value] else []) + (if last2.Some? then [last2.value] else [])
  }

  /**
   * The last timestamp of two combined spans: the maximum of the candidates, which is
   * the latest of both starts and both ends.
   */
  function MergedLastTimestamp(t1: Timestamp, last1: Option<Timestamp>, t2: Timestamp, last2: Option<Timestamp>)
    : (r: Timestamp)
    ensures r == Max(Max(t1, t2), Max(EndOf(t1, last1), EndOf(t2, last2)))
  {
    var candidates := EndCandidates(t1, last1, t2, last2);
    var m := MaxOf(candidates);
    assert t1 in candidates && t2 in candidates;
    assert last1.Some? ==> last1.value in candidates;
    assert last2.Some? ==> last2.value in candidates;
    assert m == t1 || m == t2 || (last1.Some? && m == last1.value) || (last2.Some? && m == last2.value);
    m
  }

  /**
   * A click event made from a mouse-button event: same timestamp, screenshot,
   * location and button, one click, no last timestamp. The action is not checked,
   * and a click event given here loses its count and its last timestamp.
   */
  function FromMouseButtonEvent(e: Event): (c: Event)
    requires IsMouseButton(e)
    ensures c.Click? && MouseActionOf(c) == MouseClick
    ensures c.nClicks == 1 && c.lastTimestamp == None
    ensures c.timestamp == e.timestamp && c.screenshot == e.screenshot
    ensures c.location == e.location && c.button == e.button
  {
    Click(e.timestamp, e.screenshot, e.location, e.button, 1, None)
  }

  /**
   * The action is not checked: mouse-button events that differ only in their action
   * give the same click, and a click event with any count and last timestamp at the
   * same time and place gives it too, so converting twice is converting once.
   */
  lemma FromMouseButtonEventIgnoresAction(e: Event, other: MouseAction, n: PositiveInt, last: Option<Timestamp>)
    requires e.MouseButton?
    ensures FromMouseButtonEvent(e.(action := other)) == FromMouseButtonEvent(e)
    ensures FromMouseButtonEvent(Click(e.timestamp, e.screenshot, e.location, e.button, n, last))
         == FromMouseButtonEvent(e)
    ensures FromMouseButtonEvent(FromMouseButtonEvent(e)) == FromMouseButtonEvent(e)
  {
  }

  /** The result of merging two click events; what a click object holds after `UpdateWith`. */
  function MergedClick(a: Event, b: Event): (m: Event)
    requires a.Click? && b.Click?
    ensures m.Click? && m.nClicks == a.nClicks + b.nClicks
    ensures m.timestamp == Min(a.timestamp, b.timestamp)
    ensures LastTimestampOrFirst(m)
         == Max(Max(a.timestamp, b.timestamp), Max(LastTimestampOrFirst(a), LastTimestampOrFirst(b)))
    ensures m.timestamp <= LastTimestampOrFirst(m)
    ensures m.screenshot == a.screenshot && m.location == a.location && m.button == a.button
  {
    Click(Min(a.timestamp, b.timestamp), a.screenshot, a.location, a.button, a.nClicks + b.nClicks,
          Some(MergedLastTimestamp(a.timestamp, a.lastTimestamp, b.timestamp, b.lastTimestamp)))
  }

  /** The write event made from a keyboard event: its timestamp and screenshot, its key alone. */
  function SingleKeyWrite(k: Event): (w: Event)
    requires k.Keyboard?
    ensures w.Write? && w.keys == [k.key] && w.lastTimestamp == None
    ensures w.timestamp == k.timestamp && w.screenshot == k.screenshot
  {
    Write(k.timestamp, k.screenshot, [k.key], None)
  }

  // ---------------------------------------------------------------------------
  // Validators
  // ---------------------------------------------------------------------------

  /** Why a field value was refused. */
  datatype ValidationError = InvalidAction(received: string) | UnrecognizedButton(received: string)

  /** Lower-cases an ASCII letter; other characters are unchanged. */
  function LowerChar(c: char): char {
    if 'A' <= c <= 'Z' then (c as int + ('a' as int - 'A' as int)) as char else c
  }

  function Lower(s: string): (r: string)
    ensures |r| == |s|
    ensures forall i :: 0 <= i < |s| ==> r[i] == LowerChar(s[i])
  {
    seq(|s|, i requires 0 <= i < |s| => LowerChar(s[i]))
  }

  /** The name a validated action is stored under. */
  function ActionName(a: MouseAction): string {
    match a
    case MousePress => "press"
    case MouseRelease => "release"
    case MouseClick => "click"
  }

  /**
   * The action validator of mouse-button events: the value, lower-cased, must be
   * "press", "release" or "click"; anything else is refused.
   */
  function ActionIsValidValue(value: string): (r: Result<MouseAction, ValidationError>)
    ensures r.Ok? <==> Lower(value) in {"press", "release", "click"}
    ensures r.Ok? ==> ActionName(r.value) == Lower(value)
    ensures r.Err? ==> r.error == InvalidAction(value)
  {
    var v := Lower(value);
    if v == "press" then Ok(MousePress)
    else if v == "release" then Ok(MouseRelease)
    else if v == "click" then Ok(MouseClick)
    else Err(InvalidAction(value))
  }

  lemma LowerIdempotent(s: string)
    ensures Lower(Lower(s)) == Lower(s)
  {
  }

  /** Validation ignores case: a value and its lower-cased form are accepted alike, as the same action. */
  lemma ActionValidationIgnoresCase(value: string)
    ensures ActionIsValidValue(Lower(value)).Ok? == ActionIsValidValue(value).Ok?
    ensures ActionIsValidValue(value).Ok? ==> ActionIsValidValue(Lower(value)) == ActionIsValidValue(value)
  {
    LowerIdempotent(value);
  }

  /** The stored name of an action is accepted again as that action. */
  lemma ActionNameRoundTrip(a: MouseAction)
    ensures ActionIsValidValue(ActionName(a)) == Ok(a)
  {
    match a
    case MousePress => assert Lower("press") == "press";
    case MouseRelease => assert Lower("release") == "release";
    case MouseClick => assert Lower("click") == "click";
  }

  /**
   * The button validator for plain strings: "left", "middle" or "center", "right",
   * in any case; anything else is refused.
   */
  function ButtonIsConvertedToMouseButton(value: string): (r: Result<Button, ValidationError>)
    ensures r == Ok(Left) <==> Lower(value) == "left"
    ensures r == Ok(Middle) <==> Lower(value) in {"middle", "center"}
    ensures r == Ok(Right) <==> Lower(value) == "right"
    ensures r.Err? ==> r.error == UnrecognizedButton(value)
  {
    var v := Lower(value);
    if v == "left" then Ok(Left)
    else if v == "middle" || v == "center" then Ok(Middle)
    else if v == "right" then Ok(Right)
    else Err(UnrecognizedButton(value))
  }

  // ---------------------------------------------------------------------------
  // Events that are updated in place
  // ---------------------------------------------------------------------------

  /** A click event object, whose fields `UpdateWith` changes. */
  class ClickEvent {
    var timestamp: Timestamp
    var screenshot: Option<Screenshot>
    var location: Point
    var button: Button
    var nClicks: PositiveInt
    var lastTimestamp: Option<Timestamp>

    /** The event this object currently holds. */
    function Value(): (e: Event)
      reads this
      ensures e.Click?
    {
      Click(timestamp, screenshot, location, button, nClicks, lastTimestamp)
    }

    /** A new object holding the click event `e` (construction, and also `copy()`). */
    constructor Copy(e: Event)
      requires e.Click?
      ensures Value() == e
    {
      timestamp := e.timestamp;
      screenshot := e.screenshot;
      location := e.location;
      button := e.button;
      nClicks := e.nClicks;
      lastTimestamp := e.lastTimestamp;
    }

    /**
     * Absorbs `other`: the click counts add up, the timestamp becomes the earlier one
     * and the last timestamp the latest of both timestamps and both last timestamps.
     */
    method UpdateWith(other: Event)
      requires other.Click?
      modifies this
      ensures nClicks == old(nClicks) + other.nClicks
      ensures timestamp == Min(old(timestamp), other.timestamp)
      ensures lastTimestamp == Some(MergedLastTimestamp(old(timestamp), old(lastTimestamp),
                                                        other.timestamp, other.lastTimestamp))
      ensures screenshot == old(screenshot) && location == old(location) && button == old(button)
      ensures Value() == MergedClick(old(Value()), other)
    {
      nClicks := nClicks + other.nClicks;
      var newTimestamp := Min(timestamp, other.timestamp);

      var options := [timestamp, other.timestamp];
      if lastTimestamp.Some? {
        options := options + [lastTimestamp.value];
      }
      if other.lastTimestamp.Some? {
        options := options + [other.lastTimestamp.value];
      }
      assert options == EndCandidates(timestamp, lastTimestamp, other.timestamp, other.lastTimestamp);

      lastTimestamp := Some(MaxOf(options));
      timestamp := newTimestamp;
    }
  }

  /** A scroll event object, whose fields `UpdateWith` changes. */
  class ScrollEvent {
    var timestamp: Timestamp
    var screenshot: Option<Screenshot>
    var location: Point
    var scroll: PointChange
    var lastTimestamp: Option<Timestamp>

    /** The event this object currently holds. */
    function Value(): (e: Event)
      reads this
      ensures e.Scroll?
    {
      Scroll(timestamp, screenshot, location, scroll, lastTimestamp)
    }

    /** A new object holding the scroll event `e`. */
    constructor Copy(e: Event)
      requires e.Scroll?
      ensures Value() == e
    {
      timestamp := e.timestamp;
      screenshot := e.screenshot;
      location := e.location;
      scroll := e.scroll;
      lastTimestamp := e.lastTimestamp;
    }

    /**
     * Absorbs `other`: the scroll amounts add up axis by axis, and the timestamps
     * combine as for click events; the location and screenshot stay.
     */
    method UpdateWith(other: Event)
      requires other.Scroll?
      modifies this
      ensures scroll == PointChange(old(scroll).dx + other.scroll.dx, old(scroll).dy + other.scroll.dy)
      ensures timestamp == Min(old(timestamp), other.timestamp)
      ensures lastTimestamp == Some(MergedLastTimestamp(old(timestamp), old(lastTimestamp),
                                                        other.timestamp, other.lastTimestamp))
      ensures timestamp <= LastTimestampOrFirst(Value())
      ensures screenshot == old(screenshot) && location == old(location)
    {
      scroll := PointChange(scroll.dx + other.scroll.dx, scroll.dy + other.scroll.dy);
      var newTimestamp := Min(timestamp, other.timestamp);

      var options := [timestamp, other.timestamp];
      if lastTimestamp.Some? {
        options := options + [lastTimestamp.value];
      }
      if other.lastTimestamp.Some? {
        options := options + [other.lastTimestamp.value];
      }
      assert options == EndCandidates(timestamp, lastTimestamp, other.timestamp, other.lastTimestamp);

      lastTimestamp := Some(MaxOf(options));
      timestamp := newTimestamp;
    }
  }

  /** Keys given to `WriteEvent.FromRawKey`: one key, or a sequence of them. */
  datatype RawKeys = OneKey(key: Key) | KeySequence(keys: seq<Key>)

  /** A write event object, whose keys and timestamps `Append` changes. */
  class WriteEvent {
    var timestamp: Timestamp
    var screenshot: Option<Screenshot>
    var keys: seq<Key>
    var lastTimestamp: Option<Timestamp>

    /** The event this object currently holds. */
    function Value(): (e: Event)
      reads this
      ensures e.Write?
    {
      Write(timestamp, screenshot, keys, lastTimestamp)
    }

    /** A write event with the keyboard event's timestamp, screenshot and key. */
    constructor FromKeyboardEvent(keyboardEvent: Event)
      requires keyboardEvent.Keyboard?
      ensures Value() == SingleKeyWrite(keyboardEvent)
    {
      timestamp := keyboardEvent.timestamp;
      screenshot := keyboardEvent.screenshot;
      lastTimestamp := None;
      keys := [];
      new;
      keys := keys + [keyboardEvent.key];
    }

    /**
     * A write event of the given key, or of the given keys in order, stamped `now`
     * (the clock reading the constructor would take).
     */
    constructor FromRawKey(key: RawKeys, now: Timestamp)
      ensures key.OneKey? ==> keys == [key.key]
      ensures key.KeySequence? ==> keys == key.keys
      ensures timestamp == now && screenshot == None && lastTimestamp == None
    {
      timestamp := now;
      screenshot := None;
      lastTimestamp := None;
      keys := [];
      new;
      var more := if key.OneKey? then [key.key] else key.keys;
      keys := keys + more;
    }

    /**
     * Appends `other`'s keys after this event's keys, and combines the timestamps as
     * for click events.
     */
    method Append(other: Event)
      requires other.Write?
      modifies this
      ensures keys == old(keys) + other.keys
      ensures |keys| == |old(keys)| + |other.keys|
      ensures timestamp == Min(old(timestamp), other.timestamp)
      ensures lastTimestamp == Some(MergedLastTimestamp(old(timestamp), old(lastTimestamp),
                                                        other.timestamp, other.lastTimestamp))
      ensures timestamp <= LastTimestampOrFirst(Value())
      ensures screenshot == old(screenshot)
    {
      keys := keys + other.keys;
      var newTimestamp := Min(timestamp, other.timestamp);

      var options := [timestamp, other.timestamp];
      if lastTimestamp.Some? {
        options := options + [lastTimestamp.value];
      }
      if other.lastTimestamp.Some? {
        options := options + [other.lastTimestamp.value];
      }
      assert options == EndCandidates(timestamp, lastTimestamp, other.timestamp, other.lastTimestamp);

      lastTimestamp := Some(MaxOf(options));
      timestamp := newTimestamp;
    }
  }

  // ---------------------------------------------------------------------------
  // The Events list wrapper
  // ---------------------------------------------------------------------------

  /**
   * Python's reading of an integer subscript into a list of `length` items: a
   * negative index counts from the end; anything outside the list is an index error.
   */
  function ListIndex(length: nat, index: int): (k: Option<nat>)
    ensures k.Some? <==> -(length as int) <= index < length
    ensures k.Some? ==> k.value < length
    ensures k.Some? && index >= 0 ==> k.value == index
    ensures k.Some? && index < 0 ==> k.value == length + index
  {
    if 0 <= index < length then Some(index)
    else if -(length as int) <= index < 0 then Some(length + index)
    else None
  }

  /**
   * An event as the list's validation stores it. Each event is checked against the
   * event kinds in the order state snapshot, click, mouse button, scroll, keyboard,
   * write, and the first kind it fits is what is stored. A plain mouse-button event
   * whose action is "click" already fits the click kind, so it is rebuilt as a click
   * event with one click and no last timestamp. Every other event fits its own kind
   * first and is stored as it is.
   */
  function Validated(e: Event): (v: Event)
    ensures !(v.MouseButton? && v.action == MouseClick)
    ensures v.timestamp == e.timestamp && IsMouseButton(v) == IsMouseButton(e)
    ensures IsMouseButton(e) ==> && MouseActionOf(v) == MouseActionOf(e) && v.button == e.button
                                 && v.location == e.location && v.screenshot == e.screenshot
    ensures !IsMouseButton(e) || e.Click? || e.action != MouseClick ==> v == e
    ensures e.MouseButton? && e.action == MouseClick ==> v.Click? && v.nClicks == 1 && v.lastTimestamp == None
  {
    if e.MouseButton? && e.action == MouseClick then FromMouseButtonEvent(e) else e
  }

  /** Validating an event that has already been validated changes nothing. */
  lemma ValidatedIdempotent(e: Event)
    ensures Validated(Validated(e)) == Validated(e)
  {
  }

  /** Each event of `s` as the list's validation stores it, in order. */
  function ValidatedAll(s: seq<Event>): (r: seq<Event>)
    ensures |r| == |s|
    ensures forall i :: 0 <= i < |s| ==> r[i] == Validated(s[i])
  {
    seq(|s|, i requires 0 <= i < |s| => Validated(s[i]))
  }

  /** Validating a list twice stores the same events as validating it once. */
  lemma ValidatedAllIdempotent(s: seq<Event>)
    ensures ValidatedAll(ValidatedAll(s)) == ValidatedAll(s)
  {
    var r := ValidatedAll(s);
    assert forall i :: 0 <= i < |r| ==> ValidatedAll(r)[i] == Validated(Validated(s[i]));
    forall i | 0 <= i < |r|
      ensures Validated(Validated(s[i])) == Validated(s[i])
    {
      ValidatedIdempotent(s[i]);
    }
  }

  /** Validation works event by event, so it distributes over concatenation. */
  lemma ValidatedAllAppend(a: seq<Event>, b: seq<Event>)
    ensures ValidatedAll(a + b) == ValidatedAll(a) + ValidatedAll(b)
  {
    var l, r := ValidatedAll(a + b), ValidatedAll(a) + ValidatedAll(b);
    forall i | 0 <= i < |l|
      ensures l[i] == r[i]
    {
      if i < |a| {
        assert (a + b)[i] == a[i];
      } else {
        assert (a + b)[i] == b[i - |a|];
      }
    }
  }

  /** Validating a list and then dropping its first `k` events is the same as the reverse. */
  lemma ValidatedAllDrop(s: seq<Event>, k: nat)
    requires k <= |s|
    ensures ValidatedAll(s)[k..] == ValidatedAll(s[k..])
  {
  }

  /** An ordered list of events. */
  class Events {
    var items: seq<Event>

    /** An empty list. */
    constructor ()
      ensures items == []
    {
      items := [];
    }

    /** A list of the given events, in their order, each as validation stores it. */
    constructor FromIterable(iterable: seq<Event>)
      ensures items == ValidatedAll(iterable)
    {
      items := ValidatedAll(iterable);
    }

    function Length(): (n: nat)
      reads this
      ensures n == |items|
    {
      |items|
    }

    method Append(item: Event)
      modifies this
      ensures items == old(items) + [item]
      ensures Length() == old(Length()) + 1
      ensures |items| == |old(items)| + 1 && items[|items| - 1] == item
    {
      items := items + [item];
    }

    method Extend(more: seq<Event>)
      modifies this
      ensures items == old(items) + more
      ensures Length() == old(Length()) + |more|
    {
      items := items + more;
    }

    /** The event at `index` (negative counts from the end), or None for an index error. */
    function Get(index: int): (r: Option<Event>)
      reads this
      ensures r.Some? <==> -|items| <= index < |items|
      ensures 0 <= index < |items| ==> r == Some(items[index])
      ensures -|items| <= index < 0 ==> r == Some(items[|items| + index])
    {
      var k := ListIndex(|items|, index);
      if k.Some? then Some(items[k.value]) else None
    }

    /** Removes the event at `index`; reports false, changing nothing, on an index error. */
    method Delete(index: int) returns (removed: bool)
      modifies this
      ensures removed <==> -|old(items)| <= index < |old(items)|
      ensures !removed ==> items == old(items)
      ensures removed && index >= 0 ==> items == old(items)[..index] + old(items)[index + 1..]
      ensures removed && index < 0
           ==> items == old(items)[..|old(items)| + index] + old(items)[|old(items)| + index + 1..]
    {
      var k := ListIndex(|items|, index);
      removed := k.Some?;
      if removed {
        items := items[..k.value] + items[k.value + 1..];
      }
    }
  }
}
