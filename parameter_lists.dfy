/**
 * The part of a Teuchos parameter list that the upwind factory, the standard
 * upwind initialisation and the field-backed domain function rely on: typed
 * entries, nested sub-lists, typed reads with and without a default, and the
 * two kinds of failure those reads meet (Teuchos's own exceptions and
 * Amanzi's Errors::Message).
 */
module ParameterLists {

  datatype Option<+T> = None | Some(value: T)

  datatype Result<+T, +E> = Ok(value: T) | Err(error: E)

  datatype Outcome<+E> = Pass | Fail(error: E)

  /** The value stored under one name of a parameter list. */
  datatype Param =
    | Double(d: real)
    | Int(i: int)
    | Str(s: string)
    | StrArray(items: seq<string>)
    | List(sub: ParameterList)

  datatype ParameterList = ParameterList(entries: map<string, Param>)

  /**
   * What a configuration step raises. Teuchos raises InvalidParameterName for
   * a name that is absent and InvalidParameterType for a name whose stored
   * value has another type; Amanzi's own checks raise an Errors::Message with
   * its text. The two Teuchos exceptions are not Errors::Message.
   */
  datatype ConfigError =
    | InvalidParameterName(name: string)
    | InvalidParameterType(name: string)
    | Message(text: string)

  /** The text what() gives; of a Teuchos exception only the parameter name is kept. */
  function What(e: ConfigError): string
  {
    match e
    case InvalidParameterName(name) => name
    case InvalidParameterType(name) => name
    case Message(text) => text
  }

  const EmptyList := ParameterList(map[])

  predicate IsParameter(plist: ParameterList, name: string)
  {
    name in plist.entries
  }

  /** get<double>(name, def): the default when absent, a type error when not a double. */
  function GetDoubleOr(plist: ParameterList, name: string, def: real): Result<real, ConfigError>
  {
    if name !in plist.entries then Ok(def)
    else if plist.entries[name].Double? then Ok(plist.entries[name].d)
    else Err(InvalidParameterType(name))
  }

  /** get<int>(name, def). */
  function GetIntOr(plist: ParameterList, name: string, def: int): Result<int, ConfigError>
  {
    if name !in plist.entries then Ok(def)
    else if plist.entries[name].Int? then Ok(plist.entries[name].i)
    else Err(InvalidParameterType(name))
  }

  /** get<std::string>(name): the name must be present and hold a string. */
  function GetString(plist: ParameterList, name: string): Result<string, ConfigError>
  {
    if name !in plist.entries then Err(InvalidParameterName(name))
    else if plist.entries[name].Str? then Ok(plist.entries[name].s)
    else Err(InvalidParameterType(name))
  }

  /** get<std::string>(name, def). */
  function GetStringOr(plist: ParameterList, name: string, def: string): Result<string, ConfigError>
  {
    if name !in plist.entries then Ok(def)
    else if plist.entries[name].Str? then Ok(plist.entries[name].s)
    else Err(InvalidParameterType(name))
  }

  /** get<Teuchos::Array<std::string>>(name). */
  function GetStringArray(plist: ParameterList, name: string): Result<seq<string>, ConfigError>
  {
    if name !in plist.entries then Err(InvalidParameterName(name))
    else if plist.entries[name].StrArray? then Ok(plist.entries[name].items)
    else Err(InvalidParameterType(name))
  }

  /** sublist(name) on a non-const list: an absent sub-list is created empty. */
  function Sublist(plist: ParameterList, name: string): Result<ParameterList, ConfigError>
  {
    if name !in plist.entries then Ok(EmptyList)
    else if plist.entries[name].List? then Ok(plist.entries[name].sub)
    else Err(InvalidParameterType(name))
  }

  /** sublist(name) on a const list: an absent sub-list is an error. */
  function ConstSublist(plist: ParameterList, name: string): Result<ParameterList, ConfigError>
  {
    if name !in plist.entries then Err(InvalidParameterName(name))
    else if plist.entries[name].List? then Ok(plist.entries[name].sub)
    else Err(InvalidParameterType(name))
  }
}
