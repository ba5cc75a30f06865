/**
 * The binding decoder and the label mapper of the key view: a binding token
 * such as `&mt LSFT S` becomes a key definition (what the key sends on tap,
 * what it does when held, and which special role it plays), and each atom of
 * it, such as `LSFT`, becomes the label the view draws.
 */
module Key {
  import opened Wrappers
  import opened Strings

  /** The behaviours the decoder knows, one per `case` of its switch. */
  datatype Behavior =
    | KeyPress | ModTap | StickyKey
    | Bluetooth | Output
    | Transparent | NoKey
    | LayerTap | ToLayer | StickyLayer | MomentaryLayer

  /** The behaviour name a token starts with. */
  function Name(b: Behavior): string {
    match b
    case KeyPress => "&kp"
    case ModTap => "&mt"
    case StickyKey => "&sk"
    case Bluetooth => "&bt"
    case Output => "&out"
    case Transparent => "&trans"
    case NoKey => "&none"
    case LayerTap => "&lt"
    case ToLayer => "&to"
    case StickyLayer => "&sl"
    case MomentaryLayer => "&mo"
  }

  /** The behaviour a name selects, or nothing for a name the switch has no case for. */
  function BehaviorOf(what: string): Option<Behavior> {
    if what == "&kp" then Some(KeyPress)
    else if what == "&mt" then Some(ModTap)
    else if what == "&sk" then Some(StickyKey)
    else if what == "&bt" then Some(Bluetooth)
    else if what == "&out" then Some(Output)
    else if what == "&trans" then Some(Transparent)
    else if what == "&none" then Some(NoKey)
    else if what == "&lt" then Some(LayerTap)
    else if what == "&to" then Some(ToLayer)
    else if what == "&sl" then Some(StickyLayer)
    else if what == "&mo" then Some(MomentaryLayer)
    else None
  }

  /** The switch selects a behaviour exactly for that behaviour's own name. */
  lemma BehaviorNames(what: string, b: Behavior)
    ensures BehaviorOf(what) == Some(b) <==> what == Name(b)
  {
  }

  /** `bluetoothMode`. */
  datatype BtMode = Clear | Select | Out

  /** `layerMode`: `'primary' | 'hold' | 'primary-sticky' | 'primary-hold'`. */
  datatype LayerMode = Primary | Hold | PrimarySticky | PrimaryHold

  /**
   * `KeyDefinition`. A field the source leaves `undefined` is `None`; the two
   * flags that are either `true` or absent are booleans.
   */
  datatype KeyDefinition = KeyDefinition(
    primary: Option<string>,
    hold: Option<string>,
    bluetoothMode: Option<BtMode>,
    transparent: bool,
    disabled: bool,
    layerMode: Option<LayerMode>)

  /** What the decoder throws. */
  datatype DecodeError =
    /** The `default` case: the raw token and the three fields split from it. */
    | UnknownBehavior(raw: string, what: string, arg1: Option<string>, arg2: Option<string>)
    /** `&out` without an argument: `arg1.replace` on `undefined`. */
    | NoOutputArgument(raw: string)

  /** The i-th field of a destructured split, `undefined` past its end. */
  function Arg(parts: seq<string>, i: nat): Option<string> {
    if i < |parts| then Some(parts[i]) else None
  }

  /** `s.replace(pat, '')` with a string pattern: the first occurrence of `pat` removed. */
  function RemoveFirst(s: string, pat: string): (r: string)
    decreases |s|
  {
    if |pat| <= |s| && s[..|pat|] == pat then s[|pat|..]
    else if s == [] then s
    else [s[0]] + RemoveFirst(s[1..], pat)
  }

  /** Does `pat` occur in `s` at index `i`? */
  predicate OccursAt(s: string, pat: string, i: nat) {
    i + |pat| <= |s| && s[i..i + |pat|] == pat
  }

  /** Where `pat` occurs first, `replace` cuts it out and keeps both sides. */
  lemma {:induction false} RemoveFirstAt(s: string, pat: string, i: nat)
    requires OccursAt(s, pat, i) && forall j :: 0 <= j < i ==> !OccursAt(s, pat, j)
    ensures RemoveFirst(s, pat) == s[..i] + s[i + |pat|..]
    decreases |s|
  {
    if i > 0 {
      assert !OccursAt(s, pat, 0);
      assert s[..|pat|] == s[0..0 + |pat|];
      forall j | 0 <= j < i - 1
        ensures !OccursAt(s[1..], pat, j)
      {
        assert !OccursAt(s, pat, j + 1);
        assert s[1..][j..j + |pat|] == s[j + 1..j + 1 + |pat|];
      }
      assert s[1..][i - 1..i - 1 + |pat|] == s[i..i + |pat|];
      RemoveFirstAt(s[1..], pat, i - 1);
      assert [s[0]] + (s[1..][..i - 1] + s[1..][i - 1 + |pat|..]) == s[..i] + s[i + |pat|..];
    } else {
      assert s[..|pat|] == s[0..0 + |pat|];
    }
  }

  /** Where `pat` does not occur, `replace` changes nothing. */
  lemma {:induction false} RemoveFirstAbsent(s: string, pat: string)
    requires forall j :: 0 <= j <= |s| ==> !OccursAt(s, pat, j)
    ensures RemoveFirst(s, pat) == s
    decreases |s|
  {
    assert !OccursAt(s, pat, 0);
    assert |pat| <= |s| ==> s[..|pat|] == s[0..0 + |pat|];
    if s != [] {
      assert forall j :: 0 <= j <= |s[1..]| ==> !OccursAt(s[1..], pat, j) by {
        forall j | 0 <= j <= |s| - 1
          ensures !OccursAt(s[1..], pat, j)
        {
          assert !OccursAt(s, pat, j + 1);
          if j + |pat| <= |s| - 1 {
            assert s[1..][j..j + |pat|] == s[j + 1..j + 1 + |pat|];
          }
        }
      }
      RemoveFirstAbsent(s[1..], pat);
      assert s == [s[0]] + s[1..];
    }
  }

  /** A key definition with no role: the tap output and, for a tap/hold key, the hold output. */
  function Plain(primary: Option<string>, hold: Option<string>): KeyDefinition {
    KeyDefinition(primary, hold, None, false, false, None)
  }

  /** `keyStringToDef`: split the token on single spaces into `[what, arg1, arg2]` and switch on `what`. */
  function Decode(raw: string): (r: Result<KeyDefinition, DecodeError>)
    ensures r.Failure? ==> r.error.raw == raw
    ensures r.Failure? && r.error.UnknownBehavior? ==> BehaviorOf(r.error.what).None?
  {
    var parts := Split(raw, ' ');
    var what, arg1, arg2 := parts[0], Arg(parts, 1), Arg(parts, 2);
    match BehaviorOf(what)
    case None => Failure(UnknownBehavior(raw, what, arg1, arg2))
    case Some(b) => Dispatch(raw, b, arg1, arg2)
  }

  /** The `case` of the switch that `b` selects. */
  function Dispatch(raw: string, b: Behavior, arg1: Option<string>, arg2: Option<string>): (r: Result<KeyDefinition, DecodeError>)
    ensures r.Failure? <==> b == Output && arg1.None?
    ensures r.Failure? ==> r.error == NoOutputArgument(raw)
  {
    match b
    case KeyPress => Success(Plain(arg1, None))
    case ModTap => Success(Plain(arg2, arg1))
    case StickyKey => Success(Plain(arg1, None))
    case Bluetooth =>
      var mode := if arg1 == Some("BT_CLR") then Clear else Select;
      Success(KeyDefinition(if arg2.Some? then arg2 else arg1, None, Some(mode), false, false, None))
    case Output =>
      if arg1.None? then Failure(NoOutputArgument(raw))
      else Success(KeyDefinition(Some(RemoveFirst(arg1.value, "OUT_")), None, Some(Out), false, false, None))
    case Transparent => Success(KeyDefinition(Some(""), None, None, true, false, None))
    case NoKey => Success(KeyDefinition(Some(""), None, None, false, true, None))
    case LayerTap => Success(KeyDefinition(arg2, arg1, None, false, false, Some(Hold)))
    case ToLayer => Success(KeyDefinition(arg1, None, None, false, false, Some(Primary)))
    case StickyLayer => Success(KeyDefinition(arg1, None, None, false, false, Some(PrimarySticky)))
    case MomentaryLayer => Success(KeyDefinition(arg1, None, None, false, false, Some(PrimaryHold)))
  }

  /** How many of the four roles a definition plays. */
  function Roles(d: KeyDefinition): nat {
    (if d.bluetoothMode.Some? then 1 else 0) + (if d.transparent then 1 else 0)
    + (if d.disabled then 1 else 0) + (if d.layerMode.Some? then 1 else 0)
  }

  /** Each case of the switch sets at most one role, a hold output only for `&mt` and `&lt`, and an empty primary for the blank keys. */
  lemma DispatchRoles(raw: string, b: Behavior, arg1: Option<string>, arg2: Option<string>)
    ensures var r := Dispatch(raw, b, arg1, arg2);
            && (r.Success? ==> Roles(r.value) <= 1)
            && (r.Success? && r.value.hold.Some? ==> b == ModTap || b == LayerTap)
            && (r.Success? && (r.value.transparent || r.value.disabled) ==> r.value.primary == Some(""))
  {
  }

  /**
   * A decoded key plays at most one role; it has a hold output only when it
   * is a tap/hold key (`&mt`, `&lt`), and a transparent or disabled key shows
   * an empty primary.
   */
  lemma DecodeRoles(raw: string)
    ensures var r := Decode(raw);
            && (r.Success? ==> Roles(r.value) <= 1)
            && (r.Success? && r.value.hold.Some? ==> Split(raw, ' ')[0] in {"&mt", "&lt"})
            && (r.Success? && (r.value.transparent || r.value.disabled) ==> r.value.primary == Some(""))
  {
    var parts := Split(raw, ' ');
    match BehaviorOf(parts[0])
    case None =>
    case Some(b) =>
      DispatchRoles(raw, b, Arg(parts, 1), Arg(parts, 2));
      BehaviorNames(parts[0], b);
  }

  /**
   * Decoding fails exactly for a behaviour name the switch has no case for,
   * and for `&out` with nothing after it; an unknown name is reported with the
   * raw token and the three split fields.
   */
  lemma DecodeFails(raw: string)
    ensures var parts := Split(raw, ' ');
            && (Decode(raw).Failure? <==> BehaviorOf(parts[0]).None? || (parts[0] == "&out" && |parts| == 1))
            && (BehaviorOf(parts[0]).None? ==>
                  Decode(raw) == Failure(UnknownBehavior(raw, parts[0], Arg(parts, 1), Arg(parts, 2))))
            && (parts[0] == "&out" && |parts| == 1 ==> Decode(raw) == Failure(NoOutputArgument(raw)))
  {
  }

  /** Once the split and the behaviour name are known, decoding is the case the name selects. */
  lemma DecodeVia(raw: string, b: Behavior, parts: seq<string>)
    requires |parts| >= 1 && Split(raw, ' ') == parts && BehaviorOf(parts[0]) == Some(b)
    ensures Decode(raw) == Dispatch(raw, b, Arg(parts, 1), Arg(parts, 2))
  {
  }

  /** A token written as its words separated by single spaces splits back into those words. */
  lemma Words(words: seq<string>)
    requires |words| >= 1 && forall i :: 0 <= i < |words| ==> ' ' !in words[i]
    ensures Split(Join(words, ' '), ' ') == words
  {
    SplitJoin(words, ' ');
  }

  /**
   * Destructuring a token split on spaces gives back the words it was built
   * from, one per position, and `undefined` past the last.
   */
  lemma Fields(words: seq<string>, i: nat)
    requires |words| >= 1 && forall k :: 0 <= k < |words| ==> ' ' !in words[k]
    ensures Arg(Split(Join(words, ' '), ' '), i) == if i < |words| then Some(words[i]) else None
  {
    Words(words);
  }

  lemma Words1(w: string)
    requires ' ' !in w
    ensures Split(w, ' ') == [w]
  {
    Words([w]);
  }

  lemma Words2(w: string, x: string)
    requires ' ' !in w && ' ' !in x
    ensures Split(w + " " + x, ' ') == [w, x]
  {
    assert Join([w, x], ' ') == w + " " + x by {
      assert [w, x][1..] == [x];
    }
    Words([w, x]);
  }

  lemma Words3(w: string, x: string, y: string)
    requires ' ' !in w && ' ' !in x && ' ' !in y
    ensures Split(w + " " + x + " " + y, ' ') == [w, x, y]
  {
    var words := [w, x, y];
    assert words[1..] == [x, y];
    assert Join([x, y], ' ') == x + " " + y by {
      assert [x, y][1..] == [y];
    }
    assert Join(words, ' ') == w + " " + (x + " " + y);
    assert w + " " + (x + " " + y) == w + " " + x + " " + y;
    Words(words);
  }

  /** `&kp X` and `&sk X` send `X` on tap, and nothing else. */
  lemma DecodeTap(x: string)
    requires ' ' !in x
    ensures Decode("&kp " + x) == Success(Plain(Some(x), None))
    ensures Decode("&sk " + x) == Success(Plain(Some(x), None))
  {
    assert Split("&kp " + x, ' ') == ["&kp", x] by {
      Words2("&kp", x);
      assert "&kp" + " " == "&kp ";
    }
    assert BehaviorOf("&kp") == Some(KeyPress) by {
      BehaviorNames("&kp", KeyPress);
    }
    DecodeVia("&kp " + x, KeyPress, ["&kp", x]);
    assert Split("&sk " + x, ' ') == ["&sk", x] by {
      Words2("&sk", x);
      assert "&sk" + " " == "&sk ";
    }
    assert BehaviorOf("&sk") == Some(StickyKey) by {
      BehaviorNames("&sk", StickyKey);
    }
    DecodeVia("&sk " + x, StickyKey, ["&sk", x]);
  }

  /** `&mt H X` sends `X` on tap and holds `H`. */
  lemma DecodeModTap(h: string, x: string)
    requires ' ' !in h && ' ' !in x
    ensures Decode("&mt " + h + " " + x) == Success(Plain(Some(x), Some(h)))
  {
    assert Split("&mt " + h + " " + x, ' ') == ["&mt", h, x] by {
      Words3("&mt", h, x);
      assert "&mt" + " " == "&mt ";
    }
    assert BehaviorOf("&mt") == Some(ModTap) by {
      BehaviorNames("&mt", ModTap);
    }
    DecodeVia("&mt " + h + " " + x, ModTap, ["&mt", h, x]);
  }

  /** `&bt A` shows `A`; its mode is `clear` exactly when `A` is `BT_CLR`, `select` otherwise. */
  lemma DecodeBluetooth(a: string)
    requires ' ' !in a
    ensures Decode("&bt " + a)
         == Success(KeyDefinition(Some(a), None, Some(if a == "BT_CLR" then Clear else Select), false, false, None))
  {
    Words2("&bt", a);
    assert "&bt" + " " == "&bt ";
    BehaviorNames("&bt", Bluetooth);
  }

  /** `&bt A X` shows `X`, the second argument; the mode still comes from `A`. */
  lemma DecodeBluetoothArg(a: string, x: string)
    requires ' ' !in a && ' ' !in x
    ensures Decode("&bt " + a + " " + x)
         == Success(KeyDefinition(Some(x), None, Some(if a == "BT_CLR" then Clear else Select), false, false, None))
  {
    Words3("&bt", a, x);
    assert "&bt" + " " == "&bt ";
    BehaviorNames("&bt", Bluetooth);
  }

  /** `&out X` selects an output and shows `X` with its first `OUT_` removed. */
  lemma DecodeOutput(x: string)
    requires ' ' !in x
    ensures Decode("&out " + x) == Success(KeyDefinition(Some(RemoveFirst(x, "OUT_")), None, Some(Out), false, false, None))
  {
    assert Split("&out " + x, ' ') == ["&out", x] by {
      Words2("&out", x);
      assert "&out" + " " == "&out ";
    }
    assert BehaviorOf("&out") == Some(Output) by {
      BehaviorNames("&out", Output);
    }
    DecodeVia("&out " + x, Output, ["&out", x]);
  }

  /** `&trans` shows an empty primary and is transparent. */
  lemma DecodeTransparent()
    ensures Decode("&trans") == Success(KeyDefinition(Some(""), None, None, true, false, None))
  {
    assert Split("&trans", ' ') == ["&trans"] by {
      Words1("&trans");
    }
    assert BehaviorOf("&trans") == Some(Transparent) by {
      BehaviorNames("&trans", Transparent);
    }
    DecodeVia("&trans", Transparent, ["&trans"]);
  }

  /** `&none` shows an empty primary and is disabled. */
  lemma DecodeNone()
    ensures Decode("&none") == Success(KeyDefinition(Some(""), None, None, false, true, None))
  {
    assert Split("&none", ' ') == ["&none"] by {
      Words1("&none");
    }
    assert BehaviorOf("&none") == Some(NoKey) by {
      BehaviorNames("&none", NoKey);
    }
    DecodeVia("&none", NoKey, ["&none"]);
  }

  /** `&lt L X` sends `X` on tap and holds layer `L`. */
  lemma DecodeLayerTap(l: string, x: string)
    requires ' ' !in l && ' ' !in x
    ensures Decode("&lt " + l + " " + x) == Success(KeyDefinition(Some(x), Some(l), None, false, false, Some(Hold)))
  {
    assert Split("&lt " + l + " " + x, ' ') == ["&lt", l, x] by {
      Words3("&lt", l, x);
      assert "&lt" + " " == "&lt ";
    }
    assert BehaviorOf("&lt") == Some(LayerTap) by {
      BehaviorNames("&lt", LayerTap);
    }
    DecodeVia("&lt " + l + " " + x, LayerTap, ["&lt", l, x]);
  }

  /** `&to L` shows `L`, with layer mode `primary`. */
  lemma DecodeToLayer(l: string)
    requires ' ' !in l
    ensures Decode("&to " + l) == Success(KeyDefinition(Some(l), None, None, false, false, Some(Primary)))
  {
    assert Split("&to " + l, ' ') == ["&to", l] by {
      Words2("&to", l);
      assert "&to" + " " == "&to ";
    }
    assert BehaviorOf("&to") == Some(ToLayer) by {
      BehaviorNames("&to", ToLayer);
    }
    DecodeVia("&to " + l, ToLayer, ["&to", l]);
  }

  /** `&sl L` shows `L`, with layer mode `primary-sticky`. */
  lemma DecodeStickyLayer(l: string)
    requires ' ' !in l
    ensures Decode("&sl " + l) == Success(KeyDefinition(Some(l), None, None, false, false, Some(PrimarySticky)))
  {
    assert Split("&sl " + l, ' ') == ["&sl", l] by {
      Words2("&sl", l);
      assert "&sl" + " " == "&sl ";
    }
    assert BehaviorOf("&sl") == Some(StickyLayer) by {
      BehaviorNames("&sl", StickyLayer);
    }
    DecodeVia("&sl " + l, StickyLayer, ["&sl", l]);
  }

  /** `&mo L` shows `L`, with layer mode `primary-hold`. */
  lemma DecodeMomentaryLayer(l: string)
    requires ' ' !in l
    ensures Decode("&mo " + l) == Success(KeyDefinition(Some(l), None, None, false, false, Some(PrimaryHold)))
  {
    assert Split("&mo " + l, ' ') == ["&mo", l] by {
      Words2("&mo", l);
      assert "&mo" + " " == "&mo ";
    }
    assert BehaviorOf("&mo") == Some(MomentaryLayer) by {
      BehaviorNames("&mo", MomentaryLayer);
    }
    DecodeVia("&mo " + l, MomentaryLayer, ["&mo", l]);
  }

  /** A Bluetooth profile key of the keymap: the profile number is what it shows. */
  lemma DecodeProfileExample()
    ensures Decode("&bt BT_SEL 0") == Success(KeyDefinition(Some("0"), None, Some(Select), false, false, None))
  {
    DecodeBluetoothArg("BT_SEL", "0");
    assert "&bt " + "BT_SEL" + " " + "0" == "&bt BT_SEL 0";
  }

  /** The keymap's output key: `OUT_` is stripped from what it shows. */
  lemma DecodeOutputExample()
    ensures Decode("&out OUT_BLE") == Success(KeyDefinition(Some("BLE"), None, Some(Out), false, false, None))
  {
    DecodeOutput("OUT_BLE");
    assert "&out " + "OUT_BLE" == "&out OUT_BLE";
    assert OccursAt("OUT_BLE", "OUT_", 0);
    RemoveFirstAt("OUT_BLE", "OUT_", 0);
  }

  /** A behaviour the switch does not know is an error that names the token and its fields. */
  lemma DecodeUnknownExample()
    ensures Decode("&xyz A") == Failure(UnknownBehavior("&xyz A", "&xyz", Some("A"), None))
  {
    Words2("&xyz", "A");
    assert "&xyz" + " " + "A" == "&xyz A";
    BehaviorNames("&xyz", KeyPress);
  }

  /** The icons of the icon table, by their FontAwesome names. */
  datatype IconName =
    | ChevronUp | UpLong | CaretDown | CaretLeft | CaretRight | CaretUp
    | VolumeLow | VolumeHigh | VolumeXmark | BackwardFast | ForwardFast | Play
    | DeleteLeft | Camera | RectangleList | Ban

  /**
   * The four composite icons of the special cases: the two connection
   * toggles (arrows beside the Bluetooth or USB logo), delete-left flipped
   * into delete-right, and turn-down rotated into an enter sign.
   */
  datatype CompositeName = BluetoothToggle | UsbToggle | DeleteRight | Enter

  /** What the view draws for an atom: a React node. */
  datatype Label =
    /** A plain string. */
    | Text(s: string)
    /** A substitution from the glyph table, set in its own box. */
    | Glyph(g: string)
    /** An icon from the icon table. */
    | Icon(name: IconName)
    /** A bold `#` marker, a space, then the label of the rest of a keypad atom. */
    | Keypad(rest: Label)
    /** One of the composite icons of the special cases. */
    | Composite(which: CompositeName)
    /** Any other node; the mapper hands it back untouched. */
    | Other

  /** `simpleSubs`: key names drawn as a short glyph. */
  const SimpleSubs: map<string, string> := map[
    "EXCL" := "!", "AT" := "@", "HASH" := "#", "DLLR" := "$",
    "PRCT" := "%", "CARET" := "^", "AMPS" := "&", "ASTRK" := "*", "ASTERISK" := "*",
    "UNDER" := "_", "MINUS" := "-", "PLUS" := "+", "EQL" := "=",
    "DOT" := ".", "CMMA" := ",", "SLASH" := "/", "BSLH" := "\\",
    "COLN" := ":", "SEMI" := ";", "APOS" := "'", "GRAVE" := "`",
    "LT" := "<", "GT" := ">", "LBKT" := "[", "RBKT" := "]",
    "LPAR" := "(", "RPAR" := ")", "LBRC" := "{", "RBRC" := "}",
    "LALT" := "\U{2325}", "RALT" := "\U{2325}",
    "LGUI" := "\U{2318}", "RGUI" := "\U{2318}",
    "SPC" := "\U{2423}", "SPACE" := "\U{2423}",
    "KP_NUM" := "NUM\nLOCK",
    "SLCK" := "SCRL\nLOCK"]

  /** `simpleIcons`: key names drawn as an icon. */
  const SimpleIcons: map<string, IconName> := map[
    "LCTL" := ChevronUp, "RCTL" := ChevronUp,
    "LSFT" := UpLong, "RSFT" := UpLong,
    "DARW" := CaretDown,
    "LARW" := CaretLeft,
    "RARW" := CaretRight,
    "UARW" := CaretUp,
    "MVDN" := VolumeLow,
    "MVUP" := VolumeHigh,
    "MVNO" := VolumeXmark,
    "MPRV" := BackwardFast,
    "MNXT" := ForwardFast,
    "MSTP" := Play,
    "BKSP" := DeleteLeft,
    "PSCRN" := Camera,
    "K_APP" := RectangleList,
    "BT_CLR" := Ban]

  /** The special cases of the final switch. */
  function SpecialOf(s: string): Option<CompositeName> {
    if s == "BLE" then Some(BluetoothToggle)
    else if s == "USB" then Some(UsbToggle)
    else if s == "DEL" then Some(DeleteRight)
    else if s == "ENTER" then Some(Enter)
    else None
  }

  /** The number-row rule: a two-character atom that starts with `N`. */
  predicate IsDigitAtom(s: string) {
    |s| == 2 && s[0] == 'N'
  }

  /** The keypad rule: an atom that starts with `KP_`. */
  predicate IsKeypadAtom(s: string) {
    |s| >= 3 && s[..3] == "KP_"
  }

  /**
   * `toLabel`: anything but a string comes back as it is; a string is looked
   * up in the glyph table, then in the icon table, then tried against the
   * number-row rule, the keypad rule and the special cases, in that order,
   * and comes back as it is when none of them applies.
   */
  function ToLabel(key: Label): (r: Label)
    ensures r.Text? ==> key.Text? && |r.s| <= |key.s|
    decreases if key.Text? then |key.s| else 0
  {
    if !key.Text? then key
    else
      var s := key.s;
      if s in SimpleSubs then Glyph(SimpleSubs[s])
      else if s in SimpleIcons then Icon(SimpleIcons[s])
      else if IsDigitAtom(s) then Text(s[1..])
      else if IsKeypadAtom(s) then Keypad(ToLabel(Text(s[3..])))
      else if SpecialOf(s).Some? then Composite(SpecialOf(s).value)
      else key
  }

  /**
   * Every glyph of the substitution table is a non-empty string, so its
   * truthiness test is a membership test; the icon table holds icon
   * objects, which are always truthy.
   */
  lemma TablesTruthy()
    ensures forall k :: k in SimpleSubs ==> SimpleSubs[k] != ""
  {
  }

  /** A node that is not a string comes back unchanged. */
  lemma LabelNonString(key: Label)
    requires !key.Text?
    ensures ToLabel(key) == key
  {
  }

  /** No rule applies to the string. */
  predicate Unmatched(s: string) {
    s !in SimpleSubs && s !in SimpleIcons && !IsDigitAtom(s) && !IsKeypadAtom(s) && SpecialOf(s).None?
  }

  /**
   * Each kind of label comes from exactly one rule, and each rule gives way
   * to the ones before it: a glyph only from the glyph table; an icon only
   * from the icon table, for a name the glyph table lacks; a composite only
   * for the special cases, when no earlier rule applies; a keypad label
   * exactly for a `KP_` atom no table holds, with the label of the rest
   * inside it.
   */
  lemma LabelKinds(s: string)
    ensures ToLabel(Text(s)).Glyph? <==> s in SimpleSubs
    ensures s in SimpleSubs ==> ToLabel(Text(s)) == Glyph(SimpleSubs[s])
    ensures ToLabel(Text(s)).Icon? <==> s !in SimpleSubs && s in SimpleIcons
    ensures ToLabel(Text(s)).Icon? ==> ToLabel(Text(s)) == Icon(SimpleIcons[s])
    ensures ToLabel(Text(s)).Keypad? <==> s !in SimpleSubs && s !in SimpleIcons && IsKeypadAtom(s)
    ensures ToLabel(Text(s)).Keypad? ==> ToLabel(Text(s)) == Keypad(ToLabel(Text(s[3..])))
    ensures ToLabel(Text(s)).Composite? <==>
              s !in SimpleSubs && s !in SimpleIcons && !IsDigitAtom(s) && !IsKeypadAtom(s) && SpecialOf(s).Some?
    ensures ToLabel(Text(s)) != Other
  {
  }

  /**
   * A string comes back as it is exactly when no rule applies; the
   * number-row rule is the only other one that gives a plain string, and it
   * gives the atom's second character.
   */
  lemma LabelText(s: string)
    ensures ToLabel(Text(s)) == Text(s) <==> Unmatched(s)
    ensures ToLabel(Text(s)).Text? && !Unmatched(s) ==>
              s !in SimpleSubs && s !in SimpleIcons && IsDigitAtom(s) && ToLabel(Text(s)) == Text([s[1]])
  {
    if IsDigitAtom(s) {
      assert s[1..] == [s[1]];
    }
  }

  /** How deep keypad markers nest in a label. */
  function KeypadDepth(l: Label): nat {
    if l.Keypad? then 1 + KeypadDepth(l.rest) else 0
  }

  /** Each keypad marker stands for three characters of the atom: the recursion runs on ever shorter strings. */
  lemma {:induction false} KeypadDepthBound(s: string)
    ensures 3 * KeypadDepth(ToLabel(Text(s))) <= |s|
    decreases |s|
  {
    if s !in SimpleSubs && s !in SimpleIcons && !IsDigitAtom(s) && IsKeypadAtom(s) {
      KeypadDepthBound(s[3..]);
    }
  }

  /** The number row: `N7` is drawn as `7`. */
  lemma LabelDigitExample()
    ensures ToLabel(Text("N7")) == Text("7")
  {
    assert "N7" !in SimpleSubs by {}
    assert "N7" !in SimpleIcons by {}
    LabelText("N7");
  }

  /** The keypad: `KP_N7` is drawn as the `#` marker beside the label of `N7`. */
  lemma LabelKeypadExample()
    ensures ToLabel(Text("KP_N7")) == Keypad(Text("7"))
  {
    assert "KP_N7" !in SimpleSubs by {}
    assert "KP_N7" !in SimpleIcons by {}
    assert IsKeypadAtom("KP_N7") && "KP_N7"[3..] == "N7";
    LabelKinds("KP_N7");
    LabelDigitExample();
  }

  /** The glyph table comes first: `KP_NUM` is drawn from it, not by the keypad rule. */
  lemma LabelNumLockExample()
    ensures ToLabel(Text("KP_NUM")) == Glyph("NUM\nLOCK")
  {
  }

  /** A name no rule knows is drawn as itself. */
  lemma LabelUnknownExample()
    ensures ToLabel(Text("UNKNOWNKEY")) == Text("UNKNOWNKEY")
  {
    assert "UNKNOWNKEY" !in SimpleSubs by {}
    assert "UNKNOWNKEY" !in SimpleIcons by {}
    assert !IsKeypadAtom("UNKNOWNKEY") by {
      assert "UNKNOWNKEY"[..3][0] == 'U';
    }
  }

  /** `BLE`, what `&out OUT_BLE` decodes to, is drawn as the Bluetooth toggle. */
  lemma LabelBleExample()
    ensures ToLabel(Text("BLE")) == Composite(BluetoothToggle)
  {
    assert "BLE" !in SimpleSubs by {}
    assert "BLE" !in SimpleIcons by {}
    assert !IsKeypadAtom("BLE") by {
      assert "BLE"[..3][0] == 'B';
    }
  }
}
