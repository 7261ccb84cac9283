/**
 * The mount-option policy record `MountOptsMask` and its constructor
 * `NewMountOptsMask`, which stores its arguments and derives the sloppy-mount
 * flag from the `sloppy_mount` default.
 */
module VolumeMountOptions {
  import opened Wrappers
  import opened Strconv
  import opened TypeConversion

  /** A resolved option mapping, Go's `MountOpts` (`map[string]string`). */
  type MountOpts = map<string, string>

  /** A validator's outcome: `None` is Go's nil error, `Some(msg)` an error with that message. */
  type ValidationError = Option<string>

  /**
   * A value implementing the `UserOptsValidation` interface, given by its
   * `Validate` behaviour. `UserOptsValidationFunc` adapts a plain function.
   */
  datatype UserOptsValidation = UserOptsValidationFunc(f: (string, string) -> ValidationError)

  /** `UserOptsValidationFunc.Validate`: delegates to the wrapped function. */
  function Validate(v: UserOptsValidation, a: string, b: string): (err: ValidationError)
    ensures err == v.f(a, b)
  {
    v.f(a, b)
  }

  /** The key of the default that sets `SloppyMount`. */
  const SloppyMountKey: string := "sloppy_mount"

  datatype MountOptsMask = MountOptsMask(
    allowed: seq<string>,
    defaults: map<string, Value>,
    keyPerms: map<string, string>,
    ignored: seq<string>,
    mandatory: seq<string>,
    sloppyMount: bool,
    validationFunc: seq<UserOptsValidation>)

  /** Go's zero value `MountOptsMask{}` (nil slices and maps read as empty). */
  const ZeroMask: MountOptsMask := MountOptsMask([], map[], map[], [], [], false, [])

  /** The error returned when the `sloppy_mount` default is not a boolean literal. */
  datatype MaskError = InvalidSloppyMountOption(value: string)

  const ErrorPrefix: string := "Invalid sloppy_mount option"

  /**
   * The text of the error, as `errors.Wrap` builds it from the prefix and
   * the `strconv.ParseBool` syntax error. Go quotes the value with
   * `strconv.Quote`; the model writes it between plain double quotes.
   */
  function Message(e: MaskError): (msg: string)
    ensures |msg| >= |ErrorPrefix| && msg[..|ErrorPrefix|] == ErrorPrefix
  {
    ErrorPrefix + ": strconv.ParseBool: parsing \"" + e.value + "\": invalid syntax"
  }

  /** Go's pair `(MountOptsMask, error)`; `err == None` is a nil error. */
  datatype MaskResult = MaskResult(mask: MountOptsMask, err: Option<MaskError>)

  /** The `sloppy_mount` entry of the defaults, if any (a nil map has none). */
  function SloppyDefault(defaults: Option<map<string, Value>>): (v: Option<Value>)
  {
    if defaults.Some? && SloppyMountKey in defaults.value then Some(defaults.value[SloppyMountKey]) else None
  }

  /**
   * `NewMountOptsMask`. `defaults == None` is a nil map. The slices, the
   * key-permutation map and the validators are stored as given; a nil
   * defaults map becomes an empty one. A `sloppy_mount` default is coerced
   * to a string and parsed as a boolean; if that fails the result is the
   * zero mask and an error.
   */
  function NewMountOptsMask(
    allowed: seq<string>,
    defaults: Option<map<string, Value>>,
    keyPerms: map<string, string>,
    ignored: seq<string>,
    mandatory: seq<string>,
    f: seq<UserOptsValidation>): (r: MaskResult)
    // Construction fails exactly when a sloppy_mount default is present and not a boolean literal.
    ensures r.err.Some? <==>
      SloppyDefault(defaults).Some? && ParseBool(InterfaceToString(SloppyDefault(defaults).value)).None?
    ensures r.err.Some? ==>
      r.mask == ZeroMask && r.err.value == InvalidSloppyMountOption(InterfaceToString(SloppyDefault(defaults).value))
    // On success every argument is stored unchanged.
    ensures r.err.None? ==>
      && r.mask.allowed == allowed
      && r.mask.keyPerms == keyPerms
      && r.mask.ignored == ignored
      && r.mask.mandatory == mandatory
      && r.mask.validationFunc == f
    ensures r.err.None? ==> r.mask.defaults == (if defaults.None? then map[] else defaults.value)
    // On success the flag is set exactly when the sloppy_mount default is a true literal.
    ensures r.err.None? ==>
      (r.mask.sloppyMount <==>
        SloppyDefault(defaults).Some? && InterfaceToString(SloppyDefault(defaults).value) in TrueLiterals)
  {
    var mask := MountOptsMask(allowed, if defaults.None? then map[] else defaults.value,
                              keyPerms, ignored, mandatory, false, f);
    match SloppyDefault(defaults)
    case None => MaskResult(mask, None)
    case Some(v) =>
      var vc := InterfaceToString(v);
      match ParseBool(vc)
      case Some(b) => MaskResult(mask.(sloppyMount := b), None)
      case None => MaskResult(ZeroMask, Some(InvalidSloppyMountOption(vc)))
  }

  /** Without a `sloppy_mount` default, construction succeeds and the flag is off. */
  lemma NoSloppyDefault(allowed: seq<string>, defaults: Option<map<string, Value>>, keyPerms: map<string, string>,
                        ignored: seq<string>, mandatory: seq<string>, f: seq<UserOptsValidation>)
    requires defaults.None? || SloppyMountKey !in defaults.value
    ensures NewMountOptsMask(allowed, defaults, keyPerms, ignored, mandatory, f).err.None?
    ensures !NewMountOptsMask(allowed, defaults, keyPerms, ignored, mandatory, f).mask.sloppyMount
  {
  }

  /** A `sloppy_mount` default whose string form is a true literal turns the flag on. */
  lemma SloppyTrue(allowed: seq<string>, defaults: map<string, Value>, keyPerms: map<string, string>,
                   ignored: seq<string>, mandatory: seq<string>, f: seq<UserOptsValidation>)
    requires SloppyMountKey in defaults && InterfaceToString(defaults[SloppyMountKey]) in TrueLiterals
    ensures NewMountOptsMask(allowed, Some(defaults), keyPerms, ignored, mandatory, f).err.None?
    ensures NewMountOptsMask(allowed, Some(defaults), keyPerms, ignored, mandatory, f).mask.sloppyMount
  {
  }

  /** A `sloppy_mount` default whose string form is a false literal leaves the flag off. */
  lemma SloppyFalse(allowed: seq<string>, defaults: map<string, Value>, keyPerms: map<string, string>,
                    ignored: seq<string>, mandatory: seq<string>, f: seq<UserOptsValidation>)
    requires SloppyMountKey in defaults && InterfaceToString(defaults[SloppyMountKey]) in FalseLiterals
    ensures NewMountOptsMask(allowed, Some(defaults), keyPerms, ignored, mandatory, f).err.None?
    ensures !NewMountOptsMask(allowed, Some(defaults), keyPerms, ignored, mandatory, f).mask.sloppyMount
  {
  }

  /** A Go `bool` default for `sloppy_mount` sets the flag to that boolean. */
  lemma SloppyBool(allowed: seq<string>, defaults: map<string, Value>, keyPerms: map<string, string>,
                   ignored: seq<string>, mandatory: seq<string>, f: seq<UserOptsValidation>, b: bool)
    requires SloppyMountKey in defaults && defaults[SloppyMountKey] == BoolValue(b)
    ensures NewMountOptsMask(allowed, Some(defaults), keyPerms, ignored, mandatory, f).err.None?
    ensures NewMountOptsMask(allowed, Some(defaults), keyPerms, ignored, mandatory, f).mask.sloppyMount == b
  {
  }

  /**
   * Any other string form makes construction fail with the zero mask and an
   * error whose text starts with "Invalid sloppy_mount option".
   */
  lemma SloppyInvalid(allowed: seq<string>, defaults: map<string, Value>, keyPerms: map<string, string>,
                      ignored: seq<string>, mandatory: seq<string>, f: seq<UserOptsValidation>)
    requires SloppyMountKey in defaults
    requires InterfaceToString(defaults[SloppyMountKey]) !in TrueLiterals
    requires InterfaceToString(defaults[SloppyMountKey]) !in FalseLiterals
    ensures NewMountOptsMask(allowed, Some(defaults), keyPerms, ignored, mandatory, f).mask == ZeroMask
    ensures NewMountOptsMask(allowed, Some(defaults), keyPerms, ignored, mandatory, f).err.Some?
    ensures var msg := Message(NewMountOptsMask(allowed, Some(defaults), keyPerms, ignored, mandatory, f).err.value);
            msg[..|ErrorPrefix|] == ErrorPrefix
  {
  }

  /** The defaults are stored as given: `sloppy_mount` stays among them. */
  lemma DefaultsKeepSloppyMount(allowed: seq<string>, defaults: map<string, Value>, keyPerms: map<string, string>,
                                ignored: seq<string>, mandatory: seq<string>, f: seq<UserOptsValidation>)
    requires NewMountOptsMask(allowed, Some(defaults), keyPerms, ignored, mandatory, f).err.None?
    ensures NewMountOptsMask(allowed, Some(defaults), keyPerms, ignored, mandatory, f).mask.defaults == defaults
    ensures SloppyMountKey in defaults ==>
      SloppyMountKey in NewMountOptsMask(allowed, Some(defaults), keyPerms, ignored, mandatory, f).mask.defaults
  {
  }
}
