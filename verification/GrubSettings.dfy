/** The typed bootloader settings and their round trip through `/etc/default/grub`. */
module GrubSettings {
  import opened Text
  import opened Numerals
  import opened Decimal
  import opened GrubConfig
  import opened GrubEdit

  const MAX_TIMEOUT_SECONDS := 1_000_000

  type U32 = n: nat | n <= U32_MAX

  datatype TimeoutStyle = Menu | Countdown | Hidden {
    function AsStr(): string {
      match this
      case Menu => "menu"
      case Countdown => "countdown"
      case Hidden => "hidden"
    }
  }

  datatype Settings = Settings(
    timeoutSeconds: U32, timeoutStyle: TimeoutStyle, detectOtherOs: bool, generateRecoveryEntries: bool)

  datatype Parsed<+T> = Good(value: T) | Rejected | Malformed(key: string)

  /** `validate_grub_settings`. */
  predicate ValidSettings(s: Settings) {
    s.timeoutSeconds <= MAX_TIMEOUT_SECONDS
  }

  function Lookup(values: map<string, string>, key: string): Option<string> {
    if key in values then Some(values[key]) else None
  }

  function ParseTimeout(value: string): Parsed<U32> {
    var n := ParseU32(value);
    if n.Some? && n.value <= MAX_TIMEOUT_SECONDS then Good(n.value) else Malformed("GRUB_TIMEOUT")
  }

  function ParseStyle(value: Option<string>): Parsed<TimeoutStyle> {
    if value == Some("menu") || value == None then Good(Menu)
    else if value == Some("countdown") then Good(Countdown)
    else if value == Some("hidden") then Good(Hidden)
    else Malformed("GRUB_TIMEOUT_STYLE")
  }

  function ParseOptionalBool(value: Option<string>, key: string): Parsed<bool> {
    if value == None || value == Some("false") then Good(false)
    else if value == Some("true") then Good(true)
    else Malformed(key)
  }

  function SettingsOf(values: map<string, string>): Parsed<Settings> {
    var timeout := Lookup(values, "GRUB_TIMEOUT");
    var seconds := if timeout.Some? then ParseTimeout(timeout.value) else Good(5);
    var style := ParseStyle(Lookup(values, "GRUB_TIMEOUT_STYLE"));
    var noProber := ParseOptionalBool(Lookup(values, "GRUB_DISABLE_OS_PROBER"), "GRUB_DISABLE_OS_PROBER");
    var noRecovery := ParseOptionalBool(Lookup(values, "GRUB_DISABLE_RECOVERY"), "GRUB_DISABLE_RECOVERY");
    if !seconds.Good? then Malformed("GRUB_TIMEOUT")
    else if !style.Good? then Malformed("GRUB_TIMEOUT_STYLE")
    else if !noProber.Good? then Malformed("GRUB_DISABLE_OS_PROBER")
    else if !noRecovery.Good? then Malformed("GRUB_DISABLE_RECOVERY")
    else Good(Settings(seconds.value, style.value, !noProber.value, !noRecovery.value))
  }

  /** `parse_grub_settings`. */
  function ParseGrubSettings(input: string): Parsed<Settings> {
    if Accepted(Lines(input)) then SettingsOf(ConfigOf(input).values) else Rejected
  }

  function BoolStr(b: bool): string {
    if b then "true" else "false"
  }

  /** The four assignments `set_grub_settings_with_prewrite` writes. */
  function SettingsChanges(s: Settings): seq<Change> {
    [("GRUB_TIMEOUT", Digits(s.timeoutSeconds)),
     ("GRUB_TIMEOUT_STYLE", s.timeoutStyle.AsStr()),
     ("GRUB_DISABLE_OS_PROBER", BoolStr(!s.detectOtherOs)),
     ("GRUB_DISABLE_RECOVERY", BoolStr(!s.generateRecoveryEntries))]
  }

  // ---------------------------------------------------------------------------
  // Plain values
  // ---------------------------------------------------------------------------

  predicate IsPlain(c: char) {
    IsKeyChar(c) || c == '>'
  }

  predicate Plain(s: string) {
    s != "" && forall i | 0 <= i < |s| :: IsPlain(s[i])
  }

  lemma {:induction false} PlainHasNoTrigger(s: string, triggers: seq<Described>)
    requires Plain(s)
    requires forall t | t in triggers :: t.0 != "" && !IsPlain(t.0[0])
    ensures FirstTrigger(s, triggers).None?
  {
    if triggers != [] {
      assert triggers[0] in triggers;
      var needle := triggers[0].0;
      ContainsFirst(s, needle);
      PlainHasNoTrigger(s, triggers[1..]);
    }
  }

  /** Words of letters, digits, `_` and `>` can always be written and read back. */
  lemma PlainIsRepresentable(s: string)
    requires Plain(s)
    ensures Representable(s)
  {
    PlainHasNoTrigger(s, BASH_TRIGGERS);
    assert IsPlain(s[0]) && IsPlain(s[|s| - 1]);
  }

  lemma DigitsArePlain(n: nat)
    ensures Plain(Digits(n))
  {
    DigitsValue(n);
  }

  lemma SettingsAreGoodChanges(s: Settings)
    ensures GoodChanges(SettingsChanges(s))
  {
    DigitsArePlain(s.timeoutSeconds);
    PlainIsRepresentable(Digits(s.timeoutSeconds));
    PlainIsRepresentable(s.timeoutStyle.AsStr());
    PlainIsRepresentable(BoolStr(!s.detectOtherOs));
    PlainIsRepresentable(BoolStr(!s.generateRecoveryEntries));
    SettingKeysAreValid();
  }

  lemma SettingKeysAreValid()
    ensures IsValidKey("GRUB_TIMEOUT") && IsValidKey("GRUB_TIMEOUT_STYLE")
    ensures IsValidKey("GRUB_DISABLE_OS_PROBER") && IsValidKey("GRUB_DISABLE_RECOVERY")
    ensures IsValidKey("GRUB_DEFAULT")
  {
  }

  lemma UpdateOneMore(values: map<string, string>, init: seq<Change>, c: Change)
    ensures UpdateAll(values, init + [c]) == UpdateAll(values, init)[c.0 := c.1]
  {
    assert (init + [c])[..|init|] == init;
  }

  lemma UpdateFour(values: map<string, string>, a: Change, b: Change, c: Change, d: Change)
    ensures UpdateAll(values, [a, b, c, d]) == values[a.0 := a.1][b.0 := b.1][c.0 := c.1][d.0 := d.1]
  {
    UpdateOneMore(values, [], a);
    UpdateOneMore(values, [a], b);
    UpdateOneMore(values, [a, b], c);
    UpdateOneMore(values, [a, b, c], d);
    assert [] + [a] == [a] && [a] + [b] == [a, b] && [a, b] + [c] == [a, b, c] && [a, b, c] + [d] == [a, b, c, d];
  }

  lemma SettingsOfWritten(values: map<string, string>, s: Settings)
    ensures var written := UpdateAll(values, SettingsChanges(s));
      && SettingsOf(written) == (if ValidSettings(s) then Good(s) else Malformed("GRUB_TIMEOUT"))
      && forall k | k !in {"GRUB_TIMEOUT", "GRUB_TIMEOUT_STYLE", "GRUB_DISABLE_OS_PROBER", "GRUB_DISABLE_RECOVERY"} ::
           Lookup(written, k) == Lookup(values, k)
  {
    var ch := SettingsChanges(s);
    UpdateFour(values, ch[0], ch[1], ch[2], ch[3]);
    ParsePrinted(s.timeoutSeconds);
    var w := UpdateAll(values, ch);
    assert Lookup(w, "GRUB_TIMEOUT") == Some(Digits(s.timeoutSeconds));
    assert Lookup(w, "GRUB_TIMEOUT_STYLE") == Some(s.timeoutStyle.AsStr());
    assert Lookup(w, "GRUB_DISABLE_OS_PROBER") == Some(BoolStr(!s.detectOtherOs));
    assert Lookup(w, "GRUB_DISABLE_RECOVERY") == Some(BoolStr(!s.generateRecoveryEntries));
  }

  /** Typed settings survive the file: whatever an accepted file said before, writing the
      settings and reading them back gives exactly them, precisely when they pass validation;
      every other key keeps its value. */
  lemma SettingsRoundTrip(text: string, s: Settings)
    requires Accepted(Lines(text))
    ensures var written := EditedText(text, SettingsChanges(s));
      && (ParseGrubSettings(written) == Good(s) <==> ValidSettings(s))
      && forall k | k !in {"GRUB_TIMEOUT", "GRUB_TIMEOUT_STYLE", "GRUB_DISABLE_OS_PROBER", "GRUB_DISABLE_RECOVERY"} ::
           Lookup(ConfigOf(written).values, k) == Lookup(ConfigOf(text).values, k)
  {
    SettingsAreGoodChanges(s);
    EditRefinesMapUpdate(text, SettingsChanges(s));
    SettingsOfWritten(ConfigOf(text).values, s);
  }

  /** The value of `key` says `b`; a missing key says false. */
  predicate SaysBool(values: map<string, string>, key: string, b: bool) {
    if key in values then values[key] == BoolStr(b) else !b
  }

  /** Which values mean which settings: a missing key means five seconds, a visible menu, and that
      other systems and recovery entries are shown. */
  lemma SettingsExactly(values: map<string, string>, s: Settings)
    ensures SettingsOf(values) == Good(s) <==>
      && ValidSettings(s)
      && (if "GRUB_TIMEOUT" in values then ParseU32(values["GRUB_TIMEOUT"]) == Some(s.timeoutSeconds)
          else s.timeoutSeconds == 5)
      && (if "GRUB_TIMEOUT_STYLE" in values then values["GRUB_TIMEOUT_STYLE"] == s.timeoutStyle.AsStr()
          else s.timeoutStyle == Menu)
      && SaysBool(values, "GRUB_DISABLE_OS_PROBER", !s.detectOtherOs)
      && SaysBool(values, "GRUB_DISABLE_RECOVERY", !s.generateRecoveryEntries)
  {
    OptionalBool(values, "GRUB_DISABLE_OS_PROBER", !s.detectOtherOs);
    OptionalBool(values, "GRUB_DISABLE_RECOVERY", !s.generateRecoveryEntries);
    StyleExactly(Lookup(values, "GRUB_TIMEOUT_STYLE"), s.timeoutStyle);
  }

  lemma OptionalBool(values: map<string, string>, key: string, b: bool)
    ensures ParseOptionalBool(Lookup(values, key), key) == Good(b) <==> SaysBool(values, key, b)
  {
  }

  lemma StyleExactly(value: Option<string>, style: TimeoutStyle)
    ensures ParseStyle(value) == Good(style)
      <==> if value.Some? then value.value == style.AsStr() else style == Menu
  {
  }

  predicate OneOf(values: map<string, string>, key: string, allowed: set<string>) {
    key in values ==> values[key] in allowed
  }

  /** Which key is reported: the first of the four whose value is not one of its kind. */
  lemma SettingsErrors(values: map<string, string>)
    ensures
      var r := SettingsOf(values);
      var seconds := if "GRUB_TIMEOUT" in values then ParseU32(values["GRUB_TIMEOUT"]) else Some(5);
      if seconds.None? || seconds.value > 1_000_000 then r == Malformed("GRUB_TIMEOUT")
      else if !OneOf(values, "GRUB_TIMEOUT_STYLE", {"menu", "countdown", "hidden"}) then
        r == Malformed("GRUB_TIMEOUT_STYLE")
      else if !OneOf(values, "GRUB_DISABLE_OS_PROBER", {"true", "false"}) then r == Malformed("GRUB_DISABLE_OS_PROBER")
      else if !OneOf(values, "GRUB_DISABLE_RECOVERY", {"true", "false"}) then r == Malformed("GRUB_DISABLE_RECOVERY")
      else r.Good?
  {
  }
}
