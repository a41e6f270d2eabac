/**
 * The upwind factory (UpwindFactory::Create): reads "upwind method" from a
 * parameter list and builds the matching upwind operator, initialised from
 * the sub-list "upwind <method> parameters", or fails with a configuration
 * error. The model is a function from the parameter list to one variant or
 * an error, so a successful result is never null.
 */
module UpwindFactory {
  import opened ParameterLists
  import UpwindStandard

  /**
   * The operator Create builds. The standard operator is kept as the settings
   * its Init reads; the initialisation of the other two is not part of this
   * model, so they keep the sub-list they were handed.
   */
  datatype Upwind =
    | Standard(settings: UpwindStandard.Settings)
    | DivK(params: ParameterList)
    | SecondOrder(params: ParameterList)

  const MethodKey := "upwind method"

  /** The method names Create accepts. */
  const KnownMethods: set<string> := {"standard", "divk", "second-order"}

  const MissingMethodText := "UpwindFactory: parameter \"upwind method\" is missing"

  const UnsupportedPrefix := "UpwindFactory: upwind method \""

  function UnsupportedText(name: string): string
  {
    UnsupportedPrefix + name + "\" is not supported."
  }

  /** The sub-list a method is initialised from. */
  function SublistName(name: string): string
  {
    "upwind " + name + " parameters"
  }

  /** The method name that selects a variant. */
  function MethodName(u: Upwind): (name: string)
    ensures name in KnownMethods
  {
    match u
    case Standard(_) => "standard"
    case DivK(_) => "divk"
    case SecondOrder(_) => "second-order"
  }

  /** The variant u is what its Init makes of the sub-list sub. */
  predicate InitialisedFrom(u: Upwind, sub: ParameterList)
  {
    match u
    case Standard(s) => UpwindStandard.ReadSettings(sub) == Ok(s)
    case DivK(p) => p == sub
    case SecondOrder(p) => p == sub
  }

  /**
   * Create: a missing "upwind method" and an unknown name fail with an
   * Errors::Message; a known name takes (creating it empty if absent) its own
   * sub-list and initialises its variant from it; Teuchos's own failures (a
   * method name or sub-list of the wrong type) and the variant's Init
   * failures pass through.
   */
  function Create(plist: ParameterList): (r: Result<Upwind, ConfigError>)
    ensures !IsParameter(plist, MethodKey) ==> r == Err(Message(MissingMethodText))
    ensures IsParameter(plist, MethodKey) && !plist.entries[MethodKey].Str? ==>
      r == Err(InvalidParameterType(MethodKey))
    ensures GetString(plist, MethodKey).Ok? && GetString(plist, MethodKey).value !in KnownMethods ==>
      r == Err(Message(UnsupportedText(GetString(plist, MethodKey).value)))
    ensures r.Ok? ==> GetString(plist, MethodKey) == Ok(MethodName(r.value))
    ensures r.Ok? ==>
      && Sublist(plist, SublistName(MethodName(r.value))).Ok?
      && InitialisedFrom(r.value, Sublist(plist, SublistName(MethodName(r.value))).value)
    ensures GetString(plist, MethodKey).Ok? && GetString(plist, MethodKey).value in KnownMethods ==>
      var name := GetString(plist, MethodKey).value;
      var sub := Sublist(plist, SublistName(name));
      (r.Ok? <==> sub.Ok? && (name == "standard" ==> UpwindStandard.ReadSettings(sub.value).Ok?))
  {
    if !IsParameter(plist, MethodKey) then Err(Message(MissingMethodText))
    else
      match GetString(plist, MethodKey)
      case Err(e) => Err(e)
      case Ok(name) =>
        if name == "standard" then
          match Sublist(plist, SublistName(name))
          case Err(e) => Err(e)
          case Ok(sub) =>
            match UpwindStandard.ReadSettings(sub)
            case Err(e) => Err(e)
            case Ok(s) => Ok(Standard(s))
        else if name == "divk" then
          match Sublist(plist, SublistName(name))
          case Err(e) => Err(e)
          case Ok(sub) => Ok(DivK(sub))
        else if name == "second-order" then
          match Sublist(plist, SublistName(name))
          case Err(e) => Err(e)
          case Ok(sub) => Ok(SecondOrder(sub))
        else Err(Message(UnsupportedText(name)))
  }

  /** The unsupported-method message quotes the name it was given. */
  lemma UnsupportedNamesMethod(name: string)
    ensures var t := UnsupportedText(name);
            |UnsupportedPrefix| + |name| <= |t| && t[|UnsupportedPrefix|..|UnsupportedPrefix| + |name|] == name
  {
    var t := UnsupportedText(name);
    assert t == UnsupportedPrefix + (name + "\" is not supported.");
  }

  /** The list that selects a method and holds its sub-list. */
  function Selecting(name: string, sub: ParameterList): ParameterList
  {
    ParameterList(map[MethodKey := Str(name), SublistName(name) := List(sub)])
  }

  /** The standard operator comes back from the list that selects it and holds its settings. */
  lemma StandardRoundTrip(s: UpwindStandard.Settings)
    ensures Create(Selecting("standard", UpwindStandard.SettingsList(s))) == Ok(Standard(s))
  {
    UpwindStandard.ReadSettingsRoundTrip(s);
    var p := Selecting("standard", UpwindStandard.SettingsList(s));
    assert SublistName("standard") == "upwind standard parameters";
    assert GetString(p, MethodKey) == Ok("standard");
    assert Sublist(p, SublistName("standard")) == Ok(UpwindStandard.SettingsList(s));
  }

  /** The other two variants come back from the list that selects them and holds their sub-list. */
  lemma OtherRoundTrip(u: Upwind)
    requires !u.Standard?
    ensures Create(Selecting(MethodName(u), u.params)) == Ok(u)
  {
    var name := MethodName(u);
    var p := Selecting(name, u.params);
    assert name != "standard";
    assert GetString(p, MethodKey) == Ok(name);
    assert Sublist(p, SublistName(name)) == Ok(u.params);
  }

  /**
   * Selecting "standard" without a sub-list gives the default settings, since
   * sublist() on a non-const list creates the missing sub-list empty.
   */
  lemma StandardWithoutSublist(plist: ParameterList)
    requires GetString(plist, MethodKey) == Ok("standard") && SublistName("standard") !in plist.entries
    ensures Create(plist) == Ok(Standard(UpwindStandard.Settings(UpwindStandard.UpwindFlux, UpwindStandard.RelativeTolerance, 1)))
  {
    assert Sublist(plist, SublistName("standard")) == Ok(EmptyList);
  }
}
