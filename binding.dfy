/**
 * The `keybinds.Bind` record: the options a caller passes, how `set` merges them
 * with the key argument, the validation the constructor performs, and the bind
 * object itself.
 */
module Binding {
  import opened Wrappers

  /** The identity of an event target (its `id` property); the random stamping is not modelled. */
  type TargetId = string

  /** An opaque user callback, told apart by a handle. */
  datatype Callback = Callback(handle: nat)

  /**
   * What a bind runs when it fires: the caller's callback, or the wrapper `setOnce`
   * installs, which runs the caller's callback and then schedules the bind's removal.
   */
  datatype Action = Call(callback: Callback) | CallThenRemove(callback: Callback)

  /** The `key` property of an options object: absent, a string, or some other value. */
  datatype OwnKey = NoOwnKey | OwnKeyString(s: string) | OwnKeyNotString

  /**
   * An options object as passed to `set`. `None` stands for a property that is
   * absent or `undefined`; an `action` that is not a function is `None` as well.
   */
  datatype BindOptions = BindOptions(
    key: OwnKey,
    action: Option<Callback>,
    ctrl: Option<bool>,
    shift: Option<bool>,
    alt: Option<bool>,
    preventDefault: Option<bool>,
    stopPropagation: Option<bool>,
    isEnabled: Option<bool>,
    target: Option<TargetId>)

  /** The second argument of `set`: a bare callback or an options object. */
  datatype OptionsArg = ActionOnly(f: Callback) | Options(o: BindOptions)

  /** The object `Object.assign({ key }, options)` builds; `key == None` means "not a string". */
  datatype MergedOptions = MergedOptions(
    key: Option<string>,
    action: Option<Callback>,
    ctrl: Option<bool>,
    shift: Option<bool>,
    alt: Option<bool>,
    preventDefault: Option<bool>,
    stopPropagation: Option<bool>,
    isEnabled: Option<bool>,
    target: Option<TargetId>)

  /** The two exceptions the constructor throws. */
  datatype BindError = KeyNotString | ActionNotFunction

  /** Every field of a bind except its id. */
  datatype BindFields = BindFields(
    key: string,
    action: Action,
    target: Option<TargetId>,
    ctrl: bool,
    shift: bool,
    alt: bool,
    isEnabled: bool,
    preventDefault: bool,
    stopPropagation: bool)

  /** JavaScript truthiness of an optional boolean. */
  predicate Truthy(v: Option<bool>) {
    v == Some(true)
  }

  /**
   * `Object.assign({ key }, options)`: a bare callback becomes `{ action }`, and a
   * `key` property of the options object overrides the key argument.
   */
  function MergeOptions(key: string, options: OptionsArg): (m: MergedOptions)
    ensures options.ActionOnly? ==> m.key == Some(key) && m.action == Some(options.f)
    ensures options.ActionOnly? ==>
      m.ctrl == m.shift == m.alt == m.preventDefault == m.stopPropagation == m.isEnabled == None && m.target == None
    ensures options.Options? ==> m.action == options.o.action && m.target == options.o.target
    ensures options.Options? ==>
      && m.ctrl == options.o.ctrl && m.shift == options.o.shift && m.alt == options.o.alt
      && m.preventDefault == options.o.preventDefault && m.stopPropagation == options.o.stopPropagation
      && m.isEnabled == options.o.isEnabled
    ensures options.Options? ==> match options.o.key
      case NoOwnKey => m.key == Some(key)
      case OwnKeyString(s) => m.key == Some(s)
      case OwnKeyNotString => m.key == None
  {
    match options
    case ActionOnly(f) =>
      MergedOptions(Some(key), Some(f), None, None, None, None, None, None, None)
    case Options(o) =>
      var k := match o.key
        case NoOwnKey => Some(key)
        case OwnKeyString(s) => Some(s)
        case OwnKeyNotString => None;
      MergedOptions(k, o.action, o.ctrl, o.shift, o.alt, o.preventDefault, o.stopPropagation, o.isEnabled, o.target)
  }

  /**
   * The checks and defaults of the `Bind` constructor: the key is checked before the
   * action; modifiers default to false, `isEnabled` to true unless given.
   */
  function Validate(m: MergedOptions): (r: Result<BindFields, BindError>)
    ensures r.Failure? <==> m.key.None? || m.action.None?
    ensures m.key.None? ==> r == Failure(KeyNotString)
    ensures m.key.Some? && m.action.None? ==> r == Failure(ActionNotFunction)
    ensures r.Success? ==>
      && r.value.key == m.key.value
      && r.value.action == Call(m.action.value)
      && r.value.target == m.target
    ensures r.Success? ==>
      && (r.value.ctrl <==> m.ctrl == Some(true))
      && (r.value.shift <==> m.shift == Some(true))
      && (r.value.alt <==> m.alt == Some(true))
    ensures r.Success? ==> (r.value.isEnabled <==> m.isEnabled != Some(false))
    ensures r.Success? ==>
      (r.value.preventDefault <==> m.preventDefault == Some(true)) &&
      (r.value.stopPropagation <==> m.stopPropagation == Some(true))
  {
    if m.key.None? then Failure(KeyNotString)
    else if m.action.None? then Failure(ActionNotFunction)
    else
      Success(BindFields(
        key := m.key.value,
        action := Call(m.action.value),
        target := m.target,
        ctrl := Truthy(m.ctrl),
        shift := Truthy(m.shift),
        alt := Truthy(m.alt),
        isEnabled := m.isEnabled.None? || m.isEnabled.value,
        preventDefault := Truthy(m.preventDefault),
        stopPropagation := Truthy(m.stopPropagation)))
  }

  /**
   * What `set` demands of its options: it throws exactly when the options object
   * carries a non-string `key` or no callable `action`; a bare callback never fails.
   */
  lemma SetOptionsAccepted(key: string, options: OptionsArg)
    ensures Validate(MergeOptions(key, options)).Failure? <==>
      options.Options? && (options.o.key.OwnKeyNotString? || options.o.action.None?)
    ensures Validate(MergeOptions(key, options)).Success? ==>
      Validate(MergeOptions(key, options)).value.key ==
        (if options.Options? && options.o.key.OwnKeyString? then options.o.key.s else key)
  {
  }

  /** A bind object. Only `action` (by `setOnce`) and `isEnabled` (by the host) are ever reassigned. */
  class Bind {
    const id: nat
    const key: string
    var action: Action
    const target: Option<TargetId>
    const ctrl: bool
    const shift: bool
    const alt: bool
    var isEnabled: bool
    const preventDefault: bool
    const stopPropagation: bool

    /** The bind's fields other than its id. */
    function Fields(): (f: BindFields)
      reads this
    {
      BindFields(key, action, target, ctrl, shift, alt, isEnabled, preventDefault, stopPropagation)
    }

    /** `new keybinds.Bind(options)` after validation, with the id the counter handed out. */
    constructor (id: nat, f: BindFields)
      ensures this.id == id && Fields() == f
    {
      this.id := id;
      this.key := f.key;
      this.action := f.action;
      this.target := f.target;
      this.ctrl := f.ctrl;
      this.shift := f.shift;
      this.alt := f.alt;
      this.isEnabled := f.isEnabled;
      this.preventDefault := f.preventDefault;
      this.stopPropagation := f.stopPropagation;
    }
  }
}
