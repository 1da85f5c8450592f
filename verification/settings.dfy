/** The per-device configuration tables and their mutators (pie/device.hpp):
    the double-press set, the group map and the two single-slot callbacks.
    They are kept apart from the button state (`Device.ButtonState`), which
    no mutator here takes or returns. */
module Settings {
  import opened Types
  import opened Wrappers

  /** A handle standing for a stored `std::function`; only its identity
      matters to the model. */
  type Callback = nat

  datatype Config = Config(
    doublePress: set<Button>,
    group: map<Button, int>,
    pressedCallback: Option<Callback>,
    releasedCallback: Option<Callback>)

  /** Tables as a freshly constructed device holds them. */
  const Default: Config := Config({}, map[], None, None)

  /** `double_press(b)`: insert into the double-press set. */
  function DoublePress(c: Config, b: Button): (r: Config)
    ensures b in r.doublePress
    ensures forall x :: x != b ==> (x in r.doublePress <==> x in c.doublePress)
    ensures r.group == c.group
    ensures r.pressedCallback == c.pressedCallback && r.releasedCallback == c.releasedCallback
  {
    c.(doublePress := c.doublePress + {b})
  }

  /** `double_press(list)`: apply `double_press` to each element in turn. */
  function DoublePressList(c: Config, l: seq<Button>): (r: Config)
    ensures r.doublePress == c.doublePress + set x | x in l
    ensures r.group == c.group
    ensures r.pressedCallback == c.pressedCallback && r.releasedCallback == c.releasedCallback
    decreases |l|
  {
    if |l| == 0 then c else DoublePressList(DoublePress(c, l[0]), l[1..])
  }

  /** `group(b, id)`: assign `b` to group `id`, replacing any earlier id. */
  function Group(c: Config, b: Button, id: int): (r: Config)
    ensures b in r.group && r.group[b] == id
    ensures forall x :: x != b ==> (x in r.group <==> x in c.group)
    ensures forall x :: x != b && x in c.group ==> r.group[x] == c.group[x]
    ensures r.doublePress == c.doublePress
    ensures r.pressedCallback == c.pressedCallback && r.releasedCallback == c.releasedCallback
  {
    c.(group := c.group[b := id])
  }

  /** `group(list, id)`: apply `group(b, id)` to each element in turn. */
  function GroupList(c: Config, l: seq<Button>, id: int): (r: Config)
    ensures forall x :: x in l ==> x in r.group && r.group[x] == id
    ensures forall x :: x !in l ==> (x in r.group <==> x in c.group)
    ensures forall x :: x !in l && x in c.group ==> r.group[x] == c.group[x]
    ensures r.doublePress == c.doublePress
    ensures r.pressedCallback == c.pressedCallback && r.releasedCallback == c.releasedCallback
    decreases |l|
  {
    if |l| == 0 then c else GroupList(Group(c, l[0], id), l[1..], id)
  }

  /** `pressed_callback(cb)`: the single stored press callback becomes `cb`. */
  function PressedCallback(c: Config, cb: Callback): (r: Config)
    ensures r.pressedCallback == Some(cb)
    ensures r.releasedCallback == c.releasedCallback
    ensures r.doublePress == c.doublePress && r.group == c.group
  {
    c.(pressedCallback := Some(cb))
  }

  /** `released_callback(cb)`: the single stored release callback becomes `cb`. */
  function ReleasedCallback(c: Config, cb: Callback): (r: Config)
    ensures r.releasedCallback == Some(cb)
    ensures r.pressedCallback == c.pressedCallback
    ensures r.doublePress == c.doublePress && r.group == c.group
  {
    c.(releasedCallback := Some(cb))
  }

  /** Marking a button twice is the same as marking it once. */
  lemma DoublePressIdempotent(c: Config, b: Button)
    ensures DoublePress(DoublePress(c, b), b) == DoublePress(c, b)
  {
  }

  /** The order in which two buttons are marked does not matter. */
  lemma DoublePressCommutes(c: Config, a: Button, b: Button)
    ensures DoublePress(DoublePress(c, a), b) == DoublePress(DoublePress(c, b), a)
  {
  }

  /** The list form depends only on the set of buttons listed. */
  lemma DoublePressListOrderInsensitive(c: Config, l: seq<Button>, m: seq<Button>)
    requires (set x | x in l) == (set x | x in m)
    ensures DoublePressList(c, l) == DoublePressList(c, m)
  {
  }

  /** Listing `l + m` is listing `l`, then listing `m`. */
  lemma {:induction false} DoublePressListAppend(c: Config, l: seq<Button>, m: seq<Button>)
    ensures DoublePressList(c, l + m) == DoublePressList(DoublePressList(c, l), m)
    decreases |l|
  {
    if |l| == 0 {
      assert l + m == m;
    } else {
      assert (l + m)[1..] == l[1..] + m;
      DoublePressListAppend(DoublePress(c, l[0]), l[1..], m);
    }
  }

  /** The last group assigned to a button wins. */
  lemma GroupLastWins(c: Config, b: Button, i: int, j: int)
    ensures Group(Group(c, b, i), b, j) == Group(c, b, j)
  {
  }

  /** Assignments to different buttons commute. */
  lemma GroupCommutes(c: Config, a: Button, i: int, b: Button, j: int)
    requires a != b
    ensures Group(Group(c, a, i), b, j) == Group(Group(c, b, j), a, i)
  {
  }

  /** The list form equals assigning its last element after the others. */
  lemma {:induction false} GroupListSnoc(c: Config, l: seq<Button>, b: Button, id: int)
    ensures GroupList(c, l + [b], id) == Group(GroupList(c, l, id), b, id)
    decreases |l|
  {
    if |l| == 0 {
      assert l + [b] == [b];
    } else {
      assert (l + [b])[1..] == l[1..] + [b];
      GroupListSnoc(Group(c, l[0], id), l[1..], b, id);
    }
  }

  /** Registering a callback replaces the previous one; it never chains. */
  lemma CallbacksReplace(c: Config, a: Callback, b: Callback)
    ensures PressedCallback(PressedCallback(c, a), b) == PressedCallback(c, b)
    ensures ReleasedCallback(ReleasedCallback(c, a), b) == ReleasedCallback(c, b)
  {
  }
}
