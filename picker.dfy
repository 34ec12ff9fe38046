/**
 * The colour picker's controller (src/index.js): input validation, the
 * slider mapping, and the ordered dispatch sequences run by the slider,
 * input and mouse handlers. DOM reads become parameters (`Box`, cursor
 * positions, raw input strings) and DOM writes are left to the
 * subscribers, which are callback identifiers here.
 */
module Picker {

  import opened Wrappers
  import opened ColorSpace
  import opened HexCodec
  import opened StateStore
  import opened AppState
  import Events

  // ------------------------------------------------------------------ //
  //                        The state the picker keeps                   //
  // ------------------------------------------------------------------ //

  /**
   * The picker's state: typed fields, channels that are bytes, an HSV in
   * range, an alpha in [0, 1], and the RGB that the HSV converts to.
   */
  predicate Consistent(st: State)
  {
    && "rgb" in st && st["rgb"].RgbValue? && ValidRgb(st["rgb"].rgb)
    && "hsv" in st && st["hsv"].HsvValue? && HsvInRange(st["hsv"].hsv)
    && "alpha" in st && st["alpha"].Number? && 0.0 <= st["alpha"].x <= 1.0
    && "dragging" in st && st["dragging"].Text?
    && HsvToRgb(st["hsv"].hsv) == st["rgb"].rgb
  }

  /** The picker's store: the tables of src/lib/state.js and a consistent state. */
  predicate AppStore(store: Store)
    reads store
  {
    store.actions == Actions() && store.mutations == Mutations() && Consistent(store.state)
  }

  /** A grey state (equal channels n, value n / 255, saturation and hue 0) is consistent. */
  lemma GreyConsistent(st: State, v: real, n: int)
    requires IsByte(n) && v * 255.0 == n as real
    requires "hsv" in st && st["hsv"] == HsvValue(Hsv(0.0, 0.0, v))
    requires "rgb" in st && st["rgb"] == RgbValue(Rgb(n, n, n))
    requires "alpha" in st && st["alpha"].Number? && 0.0 <= st["alpha"].x <= 1.0
    requires "dragging" in st && st["dragging"].Text?
    ensures Consistent(st)
  {
    HsvToRgbGrey(v, n);
    assert HsvToRgb(st["hsv"].hsv) == st["rgb"].rgb;
    assert ValidRgb(st["rgb"].rgb);
    assert HsvInRange(st["hsv"].hsv);
  }

  /** The default state is consistent: black is HSV (0, 0, 0). */
  lemma DefaultConsistent()
    ensures Consistent(DefaultState())
  {
    GreyConsistent(DefaultState(), 0.0, 0);
  }

  /** One `store.dispatch(name, payload)` of a handler's sequence. */
  datatype Update = Update(name: string, payload: Value)

  /** Every dispatch of the sequence names one of the picker's actions. */
  predicate ActionUpdates(ups: seq<Update>)
  {
    forall i :: 0 <= i < |ups| ==> IsActionName(ups[i].name)
  }

  /** The state after the dispatches `ups`, in order, each writing its action's field. */
  function Applied(st: State, ups: seq<Update>): State
    requires ActionUpdates(ups)
    decreases |ups|
  {
    if ups == [] then st
    else Applied(st[FieldOf(ups[0].name) := ups[0].payload], ups[1..])
  }

  /**
   * What the dispatches `ups` publish, starting from the state `st`: one
   * notification per dispatch, in order, to the callbacks subscribed to
   * its name in `subs`, each seeing the state right after its own write.
   */
  function Published(subs: Events.Registry, st: State, ups: seq<Update>): seq<Effect>
    requires ActionUpdates(ups)
    decreases |ups|
  {
    if ups == [] then []
    else
      var next := st[FieldOf(ups[0].name) := ups[0].payload];
      [Notified(ups[0].name, Events.Listeners(subs, ups[0].name), next)] + Published(subs, next, ups[1..])
  }

  /**
   * The k-th notification goes to the subscribers of the k-th dispatch and
   * carries the state after the first k + 1 writes; the last one carries
   * the final state.
   */
  lemma {:induction false} PublishedEntries(subs: Events.Registry, st: State, ups: seq<Update>)
    requires ActionUpdates(ups)
    ensures var effects := Published(subs, st, ups);
      && |effects| == |ups|
      && (forall i :: 0 <= i < |ups| ==>
            effects[i] == Notified(ups[i].name, Events.Listeners(subs, ups[i].name), Applied(st, ups[..i + 1])))
      && (ups != [] ==> effects[|ups| - 1].seen == Applied(st, ups))
    decreases |ups|
  {
    if ups != [] {
      var next := st[FieldOf(ups[0].name) := ups[0].payload];
      var rest := ups[1..];
      assert ActionUpdates(rest) by {
        assert forall i :: 0 <= i < |rest| ==> rest[i] == ups[i + 1];
      }
      PublishedEntries(subs, next, rest);
      var effects := Published(subs, st, ups);
      forall i | 0 <= i < |ups|
        ensures effects[i] == Notified(ups[i].name, Events.Listeners(subs, ups[i].name), Applied(st, ups[..i + 1]))
      {
        assert ups[..i + 1][1..] == rest[..i];
        if i > 0 {
          assert effects[i] == Published(subs, next, rest)[i - 1];
          assert rest[i - 1] == ups[i];
        }
      }
      assert ups[..|ups|] == ups;
    }
  }

  /** Two sequences of dispatches run one after the other publish and write as their concatenation does. */
  lemma {:induction false} PublishedAppend(subs: Events.Registry, st: State, a: seq<Update>, b: seq<Update>)
    requires ActionUpdates(a) && ActionUpdates(b)
    ensures ActionUpdates(a + b)
    ensures Published(subs, st, a + b) == Published(subs, st, a) + Published(subs, Applied(st, a), b)
    ensures Applied(st, a + b) == Applied(Applied(st, a), b)
    decreases |a|
  {
    ActionUpdatesSplit(a, b);
    if a == [] {
      assert a + b == b;
    } else {
      var next := st[FieldOf(a[0].name) := a[0].payload];
      assert (a + b)[1..] == a[1..] + b;
      PublishedAppend(subs, next, a[1..], b);
    }
  }

  /** The concatenation, and every tail, of sequences of the picker's dispatches are ones too. */
  lemma ActionUpdatesSplit(a: seq<Update>, b: seq<Update>)
    requires ActionUpdates(a) && ActionUpdates(b)
    ensures ActionUpdates(a + b)
    ensures a != [] ==> ActionUpdates(a[1..])
  {
    assert forall i :: 0 <= i < |a + b| ==> (a + b)[i] == if i < |a| then a[i] else b[i - |a|];
    if a != [] {
      assert forall i :: 0 <= i < |a| - 1 ==> a[1..][i] == a[i + 1];
    }
  }

  /**
   * Writing the first dispatch's payload ahead of it, as the channel input
   * does through the stored object, changes nothing anybody is shown.
   */
  lemma WrittenAhead(subs: Events.Registry, st: State, ups: seq<Update>)
    requires ActionUpdates(ups) && ups != []
    ensures Published(subs, st[FieldOf(ups[0].name) := ups[0].payload], ups) == Published(subs, st, ups)
  {
    var f, v := FieldOf(ups[0].name), ups[0].payload;
    assert st[f := v][f := v] == st[f := v];
  }

  /**
   * `store.dispatch(name, payload)` on the picker's store: the action's
   * field takes the payload, the store rests, and the action's name is
   * published once, to its subscribers, who see the new state.
   */
  method Send(store: Store, u: Update)
    requires store.actions == Actions() && store.mutations == Mutations() && IsActionName(u.name)
    modifies store`state, store`status, store`trace
    ensures store.actions == Actions() && store.mutations == Mutations()
    ensures store.state == old(store.state)[FieldOf(u.name) := u.payload]
    ensures store.status == Resting
    ensures store.trace == old(store.trace) + [Notified(u.name, Events.Listeners(store.events.events, u.name), store.state)]
    ensures store.trace == old(store.trace) + Published(store.events.events, old(store.state), [u])
  {
    ghost var before := store.Current();
    var _ := store.Dispatch(u.name, u.payload);
    AppDispatch(before, u.name, u.payload);
    assert [u][1..] == [];
  }

  /** Two dispatches in a row: both fields take their payloads, and both are published in order. */
  method SendTwo(store: Store, u1: Update, u2: Update)
    requires store.actions == Actions() && store.mutations == Mutations()
    requires IsActionName(u1.name) && IsActionName(u2.name)
    modifies store`state, store`status, store`trace
    ensures store.actions == Actions() && store.mutations == Mutations()
    ensures store.state == old(store.state)[FieldOf(u1.name) := u1.payload][FieldOf(u2.name) := u2.payload]
    ensures store.status == Resting
    ensures ActionUpdates([u1, u2])
    ensures store.trace == old(store.trace) + Published(store.events.events, old(store.state), [u1, u2])
  {
    ghost var st0 := store.state;
    Send(store, u1);
    Send(store, u2);
    PublishedAppend(store.events.events, st0, [u1], [u2]);
    assert [u1][1..] == [];
    assert [u1] + [u2] == [u1, u2];
  }

  /** Three dispatches in a row: the three fields take their payloads, and all three are published in order. */
  method SendThree(store: Store, u1: Update, u2: Update, u3: Update)
    requires store.actions == Actions() && store.mutations == Mutations()
    requires IsActionName(u1.name) && IsActionName(u2.name) && IsActionName(u3.name)
    modifies store`state, store`status, store`trace
    ensures store.actions == Actions() && store.mutations == Mutations()
    ensures store.state
         == old(store.state)[FieldOf(u1.name) := u1.payload][FieldOf(u2.name) := u2.payload][FieldOf(u3.name) := u3.payload]
    ensures store.status == Resting
    ensures ActionUpdates([u1, u2, u3])
    ensures store.trace == old(store.trace) + Published(store.events.events, old(store.state), [u1, u2, u3])
  {
    ghost var st0 := store.state;
    SendTwo(store, u1, u2);
    Send(store, u3);
    AppliedTwo(st0, u1, u2);
    PublishedAppend(store.events.events, st0, [u1, u2], [u3]);
    assert [u1, u2] + [u3] == [u1, u2, u3];
  }

  /** Two dispatches write their two fields in order. */
  lemma AppliedTwo(st: State, u1: Update, u2: Update)
    requires IsActionName(u1.name) && IsActionName(u2.name)
    ensures ActionUpdates([u1, u2])
    ensures Applied(st, [u1, u2]) == st[FieldOf(u1.name) := u1.payload][FieldOf(u2.name) := u2.payload]
  {
    var st1 := st[FieldOf(u1.name) := u1.payload];
    assert [u1, u2][1..] == [u2] && [u2][1..] == [];
    assert Applied(st, [u1, u2]) == Applied(st1, [u2]);
    assert Applied(st1, [u2]) == Applied(st1[FieldOf(u2.name) := u2.payload], []);
  }

  /** Three dispatches write their three fields in order. */
  lemma AppliedThree(st: State, u1: Update, u2: Update, u3: Update)
    requires IsActionName(u1.name) && IsActionName(u2.name) && IsActionName(u3.name)
    ensures ActionUpdates([u1, u2, u3])
    ensures Applied(st, [u1, u2, u3])
         == st[FieldOf(u1.name) := u1.payload][FieldOf(u2.name) := u2.payload][FieldOf(u3.name) := u3.payload]
  {
    assert [u1, u2, u3][1..] == [u2, u3];
    AppliedTwo(st[FieldOf(u1.name) := u1.payload], u2, u3);
  }

  // ------------------------------------------------------------------ //
  //                               drag                                  //
  // ------------------------------------------------------------------ //

  /**
   * `drag(pos, length, origin)`: the cursor position relative to the
   * element, held within [0, length], as a percentage of the length.
   * A zero length gives `0 * 100 / 0`, which is NaN: `None` here.
   */
  function Drag(pos: real, length: real, origin: real): (r: Option<real>)
    ensures r.None? <==> length == 0.0
  {
    var scaled := pos - origin;
    var inbound := if scaled <= 0.0 then 0.0 else if scaled >= length then length else scaled;
    if length == 0.0 then None else Some(inbound * 100.0 / length)
  }

  /**
   * For a positive length the result is a percentage: 0 at or before the
   * origin, 100 at or past the far end, and proportional in between.
   */
  lemma DragClamped(pos: real, length: real, origin: real)
    requires length > 0.0
    ensures Drag(pos, length, origin).Some?
    ensures var r := Drag(pos, length, origin).value;
      && 0.0 <= r <= 100.0
      && (pos <= origin ==> r == 0.0)
      && (pos >= origin + length ==> r == 100.0)
      && (origin < pos < origin + length ==> r == (pos - origin) * 100.0 / length)
  {
    var scaled := pos - origin;
    if 0.0 < scaled < length {
      assert scaled * 100.0 / length <= 100.0 by {
        assert scaled * 100.0 <= length * 100.0;
      }
    }
  }

  // ------------------------------------------------------------------ //
  //                         Input validation                            //
  // ------------------------------------------------------------------ //

  predicate IsDigit(c: char)
  {
    '0' <= c <= '9'
  }

  predicate AllDigits(s: string)
  {
    forall i :: 0 <= i < |s| ==> IsDigit(s[i])
  }

  /** `/^[0-9]+$/.test(raw)`: one digit or more and nothing else. */
  predicate IsPositiveInteger(s: string)
  {
    |s| > 0 && AllDigits(s)
  }

  /** `parseInt` of a string of decimal digits. */
  function DecimalValue(s: string): nat
    requires AllDigits(s)
    decreases |s|
  {
    if s == [] then 0 else 10 * DecimalValue(s[..|s| - 1]) + (s[|s| - 1] as int - '0' as int)
  }

  /** The upper bound of an input: 100 for the alpha input, 255 for a channel. */
  function Bound(alpha: bool): nat
  {
    if alpha then 100 else 255
  }

  /**
   * `num_input_validation`, returning the number the input stands for:
   * 0 for anything that is not a digit string, the bound for a larger
   * number, and the number itself otherwise.
   */
  function NumInputValidation(raw: string, alpha: bool): (n: int)
    ensures 0 <= n <= Bound(alpha)
    ensures !IsPositiveInteger(raw) ==> n == 0
  {
    if !IsPositiveInteger(raw) then 0
    else if DecimalValue(raw) > Bound(alpha) then Bound(alpha)
    else DecimalValue(raw)
  }

  /** `String(n)`: the decimal digits of a natural number, without leading zeros. */
  function DecimalString(n: nat): (s: string)
    ensures IsPositiveInteger(s)
    decreases n
  {
    if n < 10 then [('0' as int + n) as char]
    else DecimalString(n / 10) + [('0' as int + n % 10) as char]
  }

  lemma {:induction false} DecimalRoundTrip(n: nat)
    ensures DecimalValue(DecimalString(n)) == n
    decreases n
  {
    if n >= 10 {
      DecimalRoundTrip(n / 10);
      var s := DecimalString(n);
      assert s[..|s| - 1] == DecimalString(n / 10);
    }
  }

  /**
   * The subscribers write a stored number back into its input as text;
   * validating that text gives the number again, for every value in range,
   * and numbers past the bound are clamped to it.
   */
  lemma NumInputRoundTrip(n: nat, alpha: bool)
    ensures NumInputValidation(DecimalString(n), alpha) == if n <= Bound(alpha) then n else Bound(alpha)
  {
    DecimalRoundTrip(n);
  }

  /** A run of `z` zero digits. */
  function Zeros(z: nat): (s: string)
    ensures |s| == z && AllDigits(s)
  {
    seq(z, _ => '0')
  }

  /** Zeros written ahead of a digit string do not change the number `parseInt` reads. */
  lemma {:induction false} ZerosAhead(z: nat, s: string)
    requires AllDigits(s)
    ensures AllDigits(Zeros(z) + s) && DecimalValue(Zeros(z) + s) == DecimalValue(s)
    decreases |s|
  {
    var t := Zeros(z) + s;
    assert AllDigits(t) by {
      assert forall i :: 0 <= i < |t| ==> t[i] == if i < z then '0' else s[i - z];
    }
    if s == [] {
      ZerosValue(z);
      assert t == Zeros(z);
    } else {
      assert t[..|t| - 1] == Zeros(z) + s[..|s| - 1];
      ZerosAhead(z, s[..|s| - 1]);
    }
  }

  /** A run of zeros reads as 0. */
  lemma {:induction false} ZerosValue(z: nat)
    ensures DecimalValue(Zeros(z)) == 0
  {
    if z > 0 {
      assert Zeros(z)[..z - 1] == Zeros(z - 1);
      ZerosValue(z - 1);
    }
  }

  /**
   * The pattern `^[0-9]+$` also lets through numbers with leading zeros,
   * such as "0300" or "007": they validate as the number without them,
   * clamped to the bound.
   */
  lemma LeadingZerosInput(z: nat, n: nat, alpha: bool)
    ensures NumInputValidation(Zeros(z) + DecimalString(n), alpha) == if n <= Bound(alpha) then n else Bound(alpha)
  {
    ZerosAhead(z, DecimalString(n));
    DecimalRoundTrip(n);
  }

  /** "0300" validates as a channel to the bound 255, and "007" to 7. */
  lemma LeadingZerosExamples()
    ensures NumInputValidation("0300", false) == 255
    ensures NumInputValidation("007", false) == 7
  {
    assert DecimalString(300) == "300" by {
      assert DecimalString(30) == "30";
    }
    assert "0300" == Zeros(1) + DecimalString(300);
    LeadingZerosInput(1, 300, false);
    assert "007" == Zeros(2) + DecimalString(7);
    LeadingZerosInput(2, 7, false);
  }

  /**
   * `hex_input_validation`, with the `#` its documentation asks for: the
   * input itself when it is `#` and three or four pairs of hexadecimal
   * digits in either case, nothing otherwise.
   */
  function HexInputValidation(raw: string): (r: Option<string>)
    ensures r.Some? ==> r.value == raw
    ensures r.Some? <==> (|raw| == 7 || |raw| == 9) && raw[0] == '#' && AllHex(raw[1..])
  {
    if |raw| > 0 && raw[0] == '#' && (MatchesPairs(raw, 3) || MatchesPairs(raw, 4)) then Some(raw)
    else None
  }

  /** Every input the validation lets through is one `hex_to_rgba` decodes. */
  lemma ValidatedHexDecodes(raw: string)
    ensures HexInputValidation(raw).Some? <==> HexToRgba(raw).Decoded?
  {
  }

  /**
   * What the hex input shows, `rgba_to_hex(rgb, alpha, alpha === 1)`, is
   * accepted again by the validation and decodes to the same colour, with
   * the alpha rounded to the nearest multiple of 1/255: within 1/510 of the
   * shown alpha, and equal to it when it is such a multiple (1 included).
   */
  lemma ShownHexAccepted(rgb: Rgb, alpha: real)
    requires ValidRgb(rgb) && 0.0 <= alpha <= 1.0
    ensures var shown := RgbaToHex(rgb, alpha, alpha == 1.0);
      var decoded := Round(alpha * 255.0) as real / 255.0;
      && HexInputValidation(shown) == Some(shown)
      && HexToRgba(shown) == Decoded(Rgba(rgb, decoded))
      && alpha * 255.0 - 0.5 < decoded * 255.0 <= alpha * 255.0 + 0.5
      && ((alpha * 255.0).Floor as real == alpha * 255.0 ==> decoded == alpha)
  {
    EncodeDecodeRounded(rgb, alpha, alpha == 1.0);
    RoundInteger(255.0, 255);
    if (alpha * 255.0).Floor as real == alpha * 255.0 {
      RoundInteger(alpha * 255.0, (alpha * 255.0).Floor);
    }
  }

  // ------------------------------------------------------------------ //
  //                       What each handler computes                    //
  // ------------------------------------------------------------------ //

  /** The slider positions `init_state` takes, as percentages. */
  datatype Sliders = Sliders(h: real, s: real, v: real, a: real)

  predicate Percent(x: real)
  {
    0.0 <= x <= 100.0
  }

  /** The HSV `init_state` builds from slider percentages. */
  function InitHsv(sl: Sliders): Hsv
  {
    Hsv(sl.h * 360.0 / 100.0, sl.s / 100.0, 1.0 - sl.v / 100.0)
  }

  /** The alpha the alpha slider stands for: full at its left end. */
  function SliderAlpha(x: real): real
  {
    (100.0 - x) / 100.0
  }

  /** The state after `init_state`. */
  function InitState(st: State, sl: Sliders): State
  {
    var hsv := InitHsv(sl);
    st["rgb" := RgbValue(HsvToRgb(hsv))]["hsv" := HsvValue(hsv)]["alpha" := Number(SliderAlpha(sl.a))]
  }

  /** The dispatches of `init_state`: `set_rgb`, `set_hsv`, `set_alpha`, in that order. */
  function InitUpdates(sl: Sliders): (ups: seq<Update>)
    ensures ActionUpdates(ups)
  {
    var hsv := InitHsv(sl);
    [Update("set_rgb", RgbValue(HsvToRgb(hsv))), Update("set_hsv", HsvValue(hsv)),
     Update("set_alpha", Number(SliderAlpha(sl.a)))]
  }

  /** Together the dispatches of `init_state` write `InitState`. */
  lemma InitUpdatesWrite(st: State, sl: Sliders)
    ensures Applied(st, InitUpdates(sl)) == InitState(st, sl)
  {
    var ups := InitUpdates(sl);
    AppliedThree(st, ups[0], ups[1], ups[2]);
  }

  /**
   * `init_state` notifies the subscribers of `set_rgb`, `set_hsv` and
   * `set_alpha`, in that order; the last of them see the final state.
   */
  lemma InitPublished(subs: Events.Registry, st: State, sl: Sliders)
    ensures var e := Published(subs, st, InitUpdates(sl));
      var names := ["set_rgb", "set_hsv", "set_alpha"];
      && |e| == 3
      && (forall i :: 0 <= i < 3 ==> e[i].Notified? && e[i].event == names[i] && e[i].callbacks == Events.Listeners(subs, names[i]))
      && e[2].seen == InitState(st, sl)
  {
    PublishedEntries(subs, st, InitUpdates(sl));
    InitUpdatesWrite(st, sl);
  }

  /**
   * The state after `slider_change(code, …)` with the horizontal and
   * vertical percentages x and y: the hue slider sets h and keeps s and v,
   * the saturation/value pad sets s and v and keeps h, both then set the
   * RGB the new HSV converts to; the alpha slider sets only the alpha; any
   * other code changes nothing.
   */
  function SliderState(st: State, code: string, x: real, y: real): State
    requires "hsv" in st && st["hsv"].HsvValue?
  {
    var hsv := st["hsv"].hsv;
    if code == "hue" then
      var h := Hsv(x * 360.0 / 100.0, hsv.s, hsv.v);
      st["hsv" := HsvValue(h)]["rgb" := RgbValue(HsvToRgb(h))]
    else if code == "alpha" then
      st["alpha" := Number(SliderAlpha(x))]
    else if code == "sat" then
      var h := Hsv(hsv.h, x / 100.0, 1.0 - y / 100.0);
      st["hsv" := HsvValue(h)]["rgb" := RgbValue(HsvToRgb(h))]
    else
      st
  }

  /** The events `slider_change` dispatches, in order. */
  function SliderEvents(code: string): seq<string>
  {
    if code == "hue" || code == "sat" then ["set_hsv", "set_rgb"]
    else if code == "alpha" then ["set_alpha"]
    else []
  }

  /**
   * The dispatches of `slider_change(code, …)` from the state `st`: the
   * HSV first, then the RGB read back from it, for hue and sat; the alpha
   * alone for alpha; nothing for any other code.
   */
  function SliderUpdates(st: State, code: string, x: real, y: real): (ups: seq<Update>)
    requires "hsv" in st && st["hsv"].HsvValue?
    ensures ActionUpdates(ups)
    ensures |ups| == |SliderEvents(code)| && forall i :: 0 <= i < |ups| ==> ups[i].name == SliderEvents(code)[i]
  {
    var hsv := st["hsv"].hsv;
    if code == "hue" then
      var h := Hsv(x * 360.0 / 100.0, hsv.s, hsv.v);
      [Update("set_hsv", HsvValue(h)), Update("set_rgb", RgbValue(HsvToRgb(h)))]
    else if code == "alpha" then
      [Update("set_alpha", Number(SliderAlpha(x)))]
    else if code == "sat" then
      var h := Hsv(hsv.h, x / 100.0, 1.0 - y / 100.0);
      [Update("set_hsv", HsvValue(h)), Update("set_rgb", RgbValue(HsvToRgb(h)))]
    else
      []
  }

  /** Together the dispatches of `slider_change` write `SliderState`. */
  lemma SliderUpdatesWrite(st: State, code: string, x: real, y: real)
    requires "hsv" in st && st["hsv"].HsvValue?
    ensures Applied(st, SliderUpdates(st, code, x, y)) == SliderState(st, code, x, y)
  {
    var ups := SliderUpdates(st, code, x, y);
    if |ups| == 2 {
      AppliedTwo(st, ups[0], ups[1]);
    } else if |ups| == 1 {
      assert ups[1..] == [];
    }
  }

  /**
   * `slider_change` notifies the subscribers of its events, in order; the
   * last of them see the final state.
   */
  lemma SliderPublished(subs: Events.Registry, st: State, code: string, x: real, y: real)
    requires "hsv" in st && st["hsv"].HsvValue?
    ensures var e := Published(subs, st, SliderUpdates(st, code, x, y));
      var names := SliderEvents(code);
      && |e| == |names|
      && (forall i :: 0 <= i < |e| ==> e[i].Notified? && e[i].event == names[i] && e[i].callbacks == Events.Listeners(subs, names[i]))
      && (names != [] ==> e[|e| - 1].seen == SliderState(st, code, x, y))
  {
    PublishedEntries(subs, st, SliderUpdates(st, code, x, y));
    SliderUpdatesWrite(st, code, x, y);
  }

  /**
   * The percentages `slider_change` reads off the cursor for `code`: the
   * horizontal one always, the vertical one only for sat (0 otherwise,
   * where nothing reads it).
   */
  function Percentages(code: string, box: Box, px: real, py: real): (p: (real, real))
    requires box.width > 0.0 && (code == "sat" ==> box.height > 0.0)
    ensures Percent(p.0) && Percent(p.1)
    ensures p.0 == Drag(px, box.width, box.left).value
    ensures code == "sat" ==> p.1 == Drag(py, box.height, box.top).value
  {
    DragClamped(px, box.width, box.left);
    if code == "sat" then
      DragClamped(py, box.height, box.top);
      (Drag(px, box.width, box.left).value, Drag(py, box.height, box.top).value)
    else
      (Drag(px, box.width, box.left).value, 0.0)
  }

  /** Which text input a `keyup` came from. */
  datatype Input = ChannelInput(ch: Channel) | AlphaInput | HexInput

  /** The colour with one channel replaced. */
  function WithChannel(c: Rgb, ch: Channel, n: int): (d: Rgb)
    ensures ChannelOf(d, ch) == n
    ensures forall other :: other != ch ==> ChannelOf(d, other) == ChannelOf(c, other)
  {
    match ch
    case Red => c.(r := n)
    case Green => c.(g := n)
    case Blue => c.(b := n)
  }

  /**
   * The state after `input_change(input, raw)`: a valid hex input sets the
   * decoded RGB, its HSV and the decoded alpha, an invalid one nothing; the
   * alpha input sets the alpha to the validated percentage; a channel input
   * sets that channel to the validated number and the HSV to match.
   */
  function InputState(st: State, input: Input, raw: string): State
    requires "rgb" in st && st["rgb"].RgbValue?
  {
    match input
    case HexInput =>
      if HexInputValidation(raw).None? then st
      else
        var rgba := HexToRgba(raw).rgba;
        st["rgb" := RgbValue(rgba.rgb)]["hsv" := HsvValue(RgbToHsv(rgba.rgb))]["alpha" := Number(rgba.a)]
    case AlphaInput =>
      st["alpha" := Number(NumInputValidation(raw, true) as real / 100.0)]
    case ChannelInput(ch) =>
      var c := WithChannel(st["rgb"].rgb, ch, NumInputValidation(raw, false));
      st["rgb" := RgbValue(c)]["hsv" := HsvValue(RgbToHsv(c))]
  }

  /** The events `input_change` dispatches, in order. */
  function InputEvents(input: Input, raw: string): seq<string>
  {
    match input
    case HexInput => if HexInputValidation(raw).None? then [] else ["set_rgb", "set_hsv", "set_alpha"]
    case AlphaInput => ["set_alpha"]
    case ChannelInput(_) => ["set_rgb", "set_hsv"]
  }

  /**
   * The dispatches of `input_change(input, raw)` from the state `st`: the
   * decoded RGB, its HSV and the decoded alpha for a valid hex; the
   * validated alpha; the RGB with the edited channel, then its HSV.
   */
  function InputUpdates(st: State, input: Input, raw: string): (ups: seq<Update>)
    requires "rgb" in st && st["rgb"].RgbValue?
    ensures ActionUpdates(ups)
    ensures |ups| == |InputEvents(input, raw)| && forall i :: 0 <= i < |ups| ==> ups[i].name == InputEvents(input, raw)[i]
  {
    match input
    case HexInput =>
      if HexInputValidation(raw).None? then []
      else
        var rgba := HexToRgba(raw).rgba;
        [Update("set_rgb", RgbValue(rgba.rgb)), Update("set_hsv", HsvValue(RgbToHsv(rgba.rgb))),
         Update("set_alpha", Number(rgba.a))]
    case AlphaInput =>
      [Update("set_alpha", Number(NumInputValidation(raw, true) as real / 100.0))]
    case ChannelInput(ch) =>
      var c := WithChannel(st["rgb"].rgb, ch, NumInputValidation(raw, false));
      [Update("set_rgb", RgbValue(c)), Update("set_hsv", HsvValue(RgbToHsv(c)))]
  }

  /** Together the dispatches of `input_change` write `InputState`. */
  lemma InputUpdatesWrite(st: State, input: Input, raw: string)
    requires "rgb" in st && st["rgb"].RgbValue?
    ensures Applied(st, InputUpdates(st, input, raw)) == InputState(st, input, raw)
  {
    var ups := InputUpdates(st, input, raw);
    if |ups| == 3 {
      AppliedThree(st, ups[0], ups[1], ups[2]);
    } else if |ups| == 2 {
      AppliedTwo(st, ups[0], ups[1]);
    } else if |ups| == 1 {
      assert ups[1..] == [];
    }
  }

  /**
   * `input_change` notifies the subscribers of its events, in order; the
   * last of them see the final state.
   */
  lemma InputPublished(subs: Events.Registry, st: State, input: Input, raw: string)
    requires "rgb" in st && st["rgb"].RgbValue?
    ensures var e := Published(subs, st, InputUpdates(st, input, raw));
      var names := InputEvents(input, raw);
      && |e| == |names|
      && (forall i :: 0 <= i < |e| ==> e[i].Notified? && e[i].event == names[i] && e[i].callbacks == Events.Listeners(subs, names[i]))
      && (names != [] ==> e[|e| - 1].seen == InputState(st, input, raw))
  {
    PublishedEntries(subs, st, InputUpdates(st, input, raw));
    InputUpdatesWrite(st, input, raw);
  }

  // ------------------------------------------------------------------ //
  //                 The handlers keep the picker consistent             //
  // ------------------------------------------------------------------ //

  /** An HSV in range stored together with the RGB it converts to is consistent. */
  lemma FromHsv(st: State, hsv: Hsv)
    requires Consistent(st) && HsvInRange(hsv)
    ensures Consistent(st["hsv" := HsvValue(hsv)]["rgb" := RgbValue(HsvToRgb(hsv))])
  {
    HsvToRgbBytes(hsv);
  }

  /** An RGB of bytes stored together with its HSV is consistent, by the round trip. */
  lemma FromRgb(st: State, rgb: Rgb)
    requires Consistent(st) && ValidRgb(rgb)
    ensures Consistent(st["rgb" := RgbValue(rgb)]["hsv" := HsvValue(RgbToHsv(rgb))])
  {
    RgbToHsvInRange(rgb);
    RoundTrip(rgb);
  }

  /**
   * `init_state` with percentages leaves the picker consistent: the RGB is
   * the conversion of the HSV it stores, and the alpha is in [0, 1].
   */
  lemma InitConsistent(st: State, sl: Sliders)
    requires Consistent(st)
    requires Percent(sl.h) && Percent(sl.s) && Percent(sl.v) && Percent(sl.a)
    ensures Consistent(InitState(st, sl))
  {
    var hsv := InitHsv(sl);
    assert HsvInRange(hsv);
    FromHsv(st, hsv);
    assert InitState(st, sl) == st["hsv" := HsvValue(hsv)]["rgb" := RgbValue(HsvToRgb(hsv))]["alpha" := Number(SliderAlpha(sl.a))];
  }

  /**
   * Every slider change with percentages keeps the picker consistent; the
   * hue slider keeps saturation and value, and the pad keeps the hue.
   */
  lemma SliderConsistent(st: State, code: string, x: real, y: real)
    requires Consistent(st) && Percent(x) && Percent(y)
    ensures Consistent(SliderState(st, code, x, y))
    ensures code == "hue" ==> var h := SliderState(st, code, x, y)["hsv"].hsv;
      h.s == st["hsv"].hsv.s && h.v == st["hsv"].hsv.v
    ensures code == "sat" ==> SliderState(st, code, x, y)["hsv"].hsv.h == st["hsv"].hsv.h
  {
    var hsv := st["hsv"].hsv;
    if code == "hue" {
      FromHsv(st, Hsv(x * 360.0 / 100.0, hsv.s, hsv.v));
    } else if code == "sat" {
      FromHsv(st, Hsv(hsv.h, x / 100.0, 1.0 - y / 100.0));
    }
  }

  /**
   * Every input change keeps the picker consistent; afterwards the stored
   * HSV is the conversion of the stored RGB whenever the RGB was set, and a
   * channel input leaves the other two channels alone.
   */
  lemma InputConsistent(st: State, input: Input, raw: string)
    requires Consistent(st)
    ensures Consistent(InputState(st, input, raw))
    ensures (input.ChannelInput? || (input.HexInput? && HexInputValidation(raw).Some?)) ==>
      InputState(st, input, raw)["hsv"].hsv == RgbToHsv(InputState(st, input, raw)["rgb"].rgb)
    ensures input.ChannelInput? ==>
      forall other :: other != input.ch ==>
        ChannelOf(InputState(st, input, raw)["rgb"].rgb, other) == ChannelOf(st["rgb"].rgb, other)
  {
    match input
    case HexInput =>
      if HexInputValidation(raw).Some? {
        var rgba := HexToRgba(raw).rgba;
        FromRgb(st, rgba.rgb);
      }
    case AlphaInput =>
    case ChannelInput(ch) =>
      var c := WithChannel(st["rgb"].rgb, ch, NumInputValidation(raw, false));
      assert ValidRgb(c) by {
        assert ChannelOf(c, Red) == c.r && ChannelOf(c, Green) == c.g && ChannelOf(c, Blue) == c.b;
        assert forall ch' :: IsByte(ChannelOf(c, ch'));
      }
      FromRgb(st, c);
  }

  /**
   * `init_state({s: 50, v: 0, h: 50, a: 0})`, run on load, gives the HSV
   * (180, 0.5, 1), the RGB (128, 255, 255) and an opaque alpha.
   */
  lemma InitOnLoad()
    ensures InitHsv(Sliders(50.0, 50.0, 0.0, 0.0)) == Hsv(180.0, 0.5, 1.0)
    ensures HsvToRgb(Hsv(180.0, 0.5, 1.0)) == Rgb(128, 255, 255)
    ensures SliderAlpha(0.0) == 1.0
  {
    var hsv := Hsv(180.0, 0.5, 1.0);
    HsvToRgbInSector(hsv, 3);
    assert HsvChroma(hsv) == 0.5;
    XInSector(0.5, 3.0, 3);
  }

  // ------------------------------------------------------------------ //
  //                            The handlers                             //
  // ------------------------------------------------------------------ //

  /** The slider element's offsets and sizes. */
  datatype Box = Box(left: real, width: real, top: real, height: real)

  /**
   * `init_state(sliders)`: set_rgb, set_hsv, set_alpha, in that order, each
   * published to its subscribers with the state as far as it has got.
   */
  method InitialiseState(store: Store, sl: Sliders)
    requires AppStore(store)
    requires Percent(sl.h) && Percent(sl.s) && Percent(sl.v) && Percent(sl.a)
    modifies store`state, store`status, store`trace
    ensures AppStore(store)
    ensures store.state == InitState(old(store.state), sl)
    ensures store.status == Resting
    ensures store.trace == old(store.trace) + Published(store.events.events, old(store.state), InitUpdates(sl))
  {
    InitConsistent(store.state, sl);
    var ups := InitUpdates(sl);
    SendThree(store, ups[0], ups[1], ups[2]);
    assert [ups[0], ups[1], ups[2]] == ups;
  }

  /**
   * `slider_change(code, target, x, y)`: the cursor is mapped to
   * percentages of the element, then the dispatches of the slider's code.
   */
  method SliderChange(store: Store, code: string, box: Box, px: real, py: real)
    requires AppStore(store) && box.width > 0.0 && (code == "sat" ==> box.height > 0.0)
    modifies store`state, store`status, store`trace
    ensures AppStore(store)
    ensures var (x, y) := Percentages(code, box, px, py);
      && store.state == SliderState(old(store.state), code, x, y)
      && store.trace == old(store.trace) + Published(store.events.events, old(store.state),
                                                       SliderUpdates(old(store.state), code, x, y))
    ensures SliderEvents(code) != [] ==> store.status == Resting
    ensures SliderEvents(code) == [] ==> store.status == old(store.status)
  {
    var (x, y) := Percentages(code, box, px, py);
    SlideTo(store, code, x, y);
  }

  /** The dispatches of `slider_change` once the cursor is mapped to the percentages x and y. */
  method SlideTo(store: Store, code: string, x: real, y: real)
    requires AppStore(store) && Percent(x) && Percent(y)
    modifies store`state, store`status, store`trace
    ensures AppStore(store)
    ensures store.state == SliderState(old(store.state), code, x, y)
    ensures SliderEvents(code) != [] ==> store.status == Resting
    ensures SliderEvents(code) == [] ==> store.status == old(store.status)
    ensures store.trace
         == old(store.trace) + Published(store.events.events, old(store.state), SliderUpdates(old(store.state), code, x, y))
  {
    SliderConsistent(store.state, code, x, y);
    var ups := SliderUpdates(store.state, code, x, y);
    if |ups| == 2 {
      SendTwo(store, ups[0], ups[1]);
      assert [ups[0], ups[1]] == ups;
    } else if |ups| == 1 {
      Send(store, ups[0]);
      assert [ups[0]] == ups;
    } else {
      assert store.trace + [] == store.trace;
    }
  }

  /**
   * `input_change(input, raw)`. For a channel input the edited channel is
   * written into the stored RGB object itself, which bypasses the trap and
   * is not an effect; `set_rgb` and `set_hsv` follow.
   */
  method InputChange(store: Store, input: Input, raw: string)
    requires AppStore(store)
    modifies store`state, store`status, store`trace
    ensures AppStore(store)
    ensures store.state == InputState(old(store.state), input, raw)
    ensures InputEvents(input, raw) != [] ==> store.status == Resting
    ensures InputEvents(input, raw) == [] ==> store.status == old(store.status)
    ensures store.trace
         == old(store.trace) + Published(store.events.events, old(store.state), InputUpdates(old(store.state), input, raw))
  {
    InputConsistent(store.state, input, raw);
    var ups := InputUpdates(store.state, input, raw);
    match input
    case HexInput =>
      if HexInputValidation(raw).Some? {
        SendThree(store, ups[0], ups[1], ups[2]);
        assert [ups[0], ups[1], ups[2]] == ups;
      } else {
        assert store.trace + [] == store.trace;
      }
    case AlphaInput =>
      Send(store, ups[0]);
      assert [ups[0]] == ups;
    case ChannelInput(ch) =>
      ghost var st0 := store.state;
      store.state := store.state["rgb" := ups[0].payload];
      SendTwo(store, ups[0], ups[1]);
      assert [ups[0], ups[1]] == ups;
      WrittenAhead(store.events.events, st0, ups);
  }

  /**
   * The `mousedown` listener: on an element with a non-empty code, record
   * the code as the one being dragged, then apply the slider change.
   */
  method MouseDown(store: Store, code: string, box: Box, px: real, py: real)
    requires AppStore(store) && (code != "" ==> box.width > 0.0) && (code == "sat" ==> box.height > 0.0)
    modifies store`state, store`status, store`trace
    ensures AppStore(store)
    ensures code == "" ==>
      store.state == old(store.state) && store.status == old(store.status) && store.trace == old(store.trace)
    ensures code != "" ==>
      var (x, y) := Percentages(code, box, px, py);
      var dragged := old(store.state)["dragging" := Text(code)];
      && store.state == SliderState(dragged, code, x, y)
      && store.status == Resting
      && store.trace
         == old(store.trace)
          + Published(store.events.events, old(store.state),
                      [Update("set_dragging", Text(code))] + SliderUpdates(dragged, code, x, y))
  {
    if code != "" {
      ghost var st0 := store.state;
      var u := Update("set_dragging", Text(code));
      Send(store, u);
      ghost var st1 := store.state;
      SliderChange(store, code, box, px, py);
      var (x, y) := Percentages(code, box, px, py);
      assert [u][1..] == [];
      PublishedAppend(store.events.events, st0, [u], SliderUpdates(st1, code, x, y));
    }
  }

  /**
   * The `mousemove` listener: only while a code is being dragged, apply
   * that slider's change; the dragged code itself is kept.
   */
  method MouseMove(store: Store, box: Box, px: real, py: real)
    requires AppStore(store)
    requires store.state["dragging"].s != "" ==> box.width > 0.0
    requires store.state["dragging"].s == "sat" ==> box.height > 0.0
    modifies store`state, store`status, store`trace
    ensures AppStore(store)
    ensures store.state["dragging"] == old(store.state["dragging"])
    ensures var code := old(store.state["dragging"].s);
      && (code == "" ==>
          store.state == old(store.state) && store.status == old(store.status) && store.trace == old(store.trace))
      && (code != "" ==>
          var (x, y) := Percentages(code, box, px, py);
          && store.state == SliderState(old(store.state), code, x, y)
          && (SliderEvents(code) != [] ==> store.status == Resting)
          && (SliderEvents(code) == [] ==> store.status == old(store.status))
          && store.trace
             == old(store.trace) + Published(store.events.events, old(store.state), SliderUpdates(old(store.state), code, x, y)))
  {
    var code := store.state["dragging"].s;
    if code != "" {
      SliderChange(store, code, box, px, py);
    }
  }

  /** The `mouseup` listener: whatever was being dragged, nothing is any more. */
  method MouseUp(store: Store)
    requires AppStore(store)
    modifies store`state, store`status, store`trace
    ensures AppStore(store)
    ensures store.state == old(store.state)["dragging" := Text("")]
    ensures store.status == Resting
    ensures store.trace == old(store.trace) + Published(store.events.events, old(store.state), [Update("set_dragging", Text(""))])
  {
    Send(store, Update("set_dragging", Text("")));
  }
}
