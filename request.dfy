/**
 * `Request`: reading request parameters from the POST and GET arrays, and
 * escaping them on the way out.
 *
 * The superglobals and the admin flags the source reads from the registry
 * are passed in as parameters.
 */
module Request {
  import opened Wrappers
  import opened SpecialChars

  // ---------------------------------------------------------------------
  // replaceSpecialChars and checkParamSpecialChars
  // ---------------------------------------------------------------------

  /**
   * `replaceSpecialChars($data, $raw)`: objects and scalars are returned as
   * they are, strings go through one `str_replace`, and arrays are rebuilt
   * entry by entry. A key named in `raw` keeps its entry unescaped; any other
   * key is escaped and its value escaped recursively with no raw list. An
   * escaped key that is already present in the new array overwrites the value
   * stored under it.
   */
  method ReplaceSpecialChars(v: RequestValue, raw: seq<string>) returns (r: RequestValue)
    ensures r == Escape(v, raw)
    decreases v, 2
  {
    match v {
      case Object(_) =>
        r := v;
      case Array(es) =>
        var newValue := ReplaceInArray(es, raw);
        r := Array(newValue);
      case Str(s) =>
        r := Str(ReplaceInString(s));
      case _ =>
        r := v;
    }
  }

  /** The `foreach` over the entries of an array, building the new array. */
  method ReplaceInArray(es: seq<Entry>, raw: seq<string>) returns (newValue: seq<Entry>)
    ensures newValue == EscapeArray(es, raw)
    decreases es, 1
  {
    newValue := [];
    var i := 0;
    while i < |es|
      invariant 0 <= i <= |es|
      invariant newValue == EscapeArray(es[..i], raw)
    {
      var entry := ReplaceInEntry(es[i], raw);
      EscapeArrayPrefix(es, i, raw);
      newValue := Put(newValue, entry);
      i := i + 1;
    }
    assert es[..|es|] == es;
  }

  /** One pass of the loop body: the key and value to store for one entry. */
  method ReplaceInEntry(e: Entry, raw: seq<string>) returns (r: Entry)
    ensures r == EscapeEntry(e, raw)
    decreases e, 0
  {
    var validKey := e.key;
    var val := e.value;
    if e.key !in raw {
      // The recursive call on the key takes the string branch.
      validKey := ReplaceInString(e.key);
      val := ReplaceSpecialChars(val, []);
    }
    r := Entry(validKey, val);
  }

  /** A PHP variable passed by reference. */
  class ValueSlot {
    var value: RequestValue

    constructor (v: RequestValue)
      ensures value == v
    {
      value := v;
    }
  }

  /**
   * `checkParamSpecialChars(&$value, $raw)`: the escaped value is written
   * back into the caller's variable and also returned.
   */
  method CheckParamSpecialChars(slot: ValueSlot, raw: seq<string>) returns (r: RequestValue)
    modifies slot
    ensures slot.value == Escape(old(slot.value), raw)
    ensures r == slot.value
  {
    slot.value := ReplaceSpecialChars(slot.value, raw);
    r := slot.value;
  }

  // ---------------------------------------------------------------------
  // getRequestParameter and getRequestEscapedParameter
  // ---------------------------------------------------------------------

  /** A superglobal array such as `$_POST` or `$_GET`, by parameter name. */
  type Params = map<string, RequestValue>

  /** PHP's `isset($p[$name])`: present and not null. */
  predicate IsSet(p: Params, name: string)
  {
    name in p && p[name] != Null
  }

  /**
   * `getRequestParameter($name, $default)`: the POST value if set, else the GET
   * value if set, else the default. The raw value is returned unescaped.
   */
  function GetRequestParameter(post: Params, get: Params, name: string, default: RequestValue): (r: RequestValue)
    ensures (name in post && r == post[name]) || (name in get && r == get[name]) || r == default
    ensures !IsSet(post, name) && IsSet(get, name) ==> r == get[name]
    ensures r == Null ==> default == Null
  {
    if IsSet(post, name) then post[name]
    else if IsSet(get, name) then get[name]
    else default
  }

  /** A set POST value wins over anything in GET. */
  lemma PostTakesPrecedence(post: Params, get: Params, name: string, default: RequestValue)
    requires IsSet(post, name)
    ensures GetRequestParameter(post, get, name, default) == post[name]
  {
  }

  /** A POST entry holding null counts as unset: the lookup falls through to GET. */
  lemma NullPostFallsThrough(post: Params, get: Params, name: string, default: RequestValue)
    requires name in post && post[name] == Null
    ensures GetRequestParameter(post, get, name, default) == GetRequestParameter(post - {name}, get, name, default)
  {
  }

  /** POST does not set the name and GET does: the GET value comes back, whatever the default. */
  lemma GetWhenPostUnset(post: Params, get: Params, name: string, default: RequestValue)
    requires !IsSet(post, name) && IsSet(get, name)
    ensures GetRequestParameter(post, get, name, default) == get[name]
  {
  }

  /** The unit tests of the raw lookup: from POST, from GET, and the default when neither has the name. */
  lemma RawParameterTestVectors()
    ensures GetRequestParameter(map["postKey" := Str("testValue")], map[], "postKey", Null) == Str("testValue")
    ensures GetRequestParameter(map[], map["getKey" := Str("testValue")], "getKey", Null) == Str("testValue")
    ensures GetRequestParameter(map[], map[], "nonExisting", Str("defaultValue")) == Str("defaultValue")
  {
  }

  /** Neither array sets the name: the default comes back. */
  lemma DefaultWhenUnset(post: Params, get: Params, name: string, default: RequestValue)
    requires !IsSet(post, name) && !IsSet(get, name)
    ensures GetRequestParameter(post, get, name, default) == default
  {
  }

  /**
   * What `getRequestEscapedParameter` returns for a looked-up value: escaped
   * with no raw list unless it is null or the request comes from a logged-in
   * admin (the config is in admin mode and the session flag is set).
   */
  function EscapedValue(v: RequestValue, configIsAdmin: bool, sessionIsAdmin: bool): (r: RequestValue)
    ensures v == Null ==> r == Null
    ensures configIsAdmin && sessionIsAdmin ==> r == v
    ensures v != Null && !(configIsAdmin && sessionIsAdmin) ==> r == Escape(v, [])
  {
    if v != Null && !(configIsAdmin && sessionIsAdmin) then Escape(v, []) else v
  }

  /**
   * `getRequestEscapedParameter($name, $default)`: the parameter looked up as
   * `getRequestParameter` does, then escaped in place through
   * `checkParamSpecialChars` unless it is null or the caller is an admin.
   */
  method GetRequestEscapedParameter(post: Params, get: Params, name: string, default: RequestValue,
                                    configIsAdmin: bool, sessionIsAdmin: bool)
    returns (r: RequestValue)
    ensures r == EscapedValue(GetRequestParameter(post, get, name, default), configIsAdmin, sessionIsAdmin)
  {
    var value := GetRequestParameter(post, get, name, default);
    var isAdmin := configIsAdmin && sessionIsAdmin;
    if value != Null && !isAdmin {
      var slot := new ValueSlot(value);
      var _ := CheckParamSpecialChars(slot, []);
      value := slot.value;
    }
    r := value;
  }

  /** An escaped string parameter never carries a markup character or a line break. */
  lemma EscapedStringParameterIsSafe(post: Params, get: Params, name: string, default: RequestValue,
                                     configIsAdmin: bool, sessionIsAdmin: bool)
    requires GetRequestParameter(post, get, name, default).Str?
    requires !(configIsAdmin && sessionIsAdmin)
    ensures var r := EscapedValue(GetRequestParameter(post, get, name, default), configIsAdmin, sessionIsAdmin);
      r.Str? && forall c :: c in r.s ==> !IsSpecial(c)
  {
    EscapedStringHasNoSpecialChars(GetRequestParameter(post, get, name, default).s);
  }

  /**
   * The default takes the same path as a looked-up value: a string default is
   * escaped too.
   */
  lemma DefaultIsEscaped(post: Params, get: Params, name: string, default: string)
    requires !IsSet(post, name) && !IsSet(get, name)
    ensures EscapedValue(GetRequestParameter(post, get, name, Str(default)), false, false) == Str(EscapeString(default))
  {
  }

  /**
   * The unit tests: `&test` posted comes back as `&amp;test`; a missing name
   * gives null, or the default when one is given.
   */
  lemma EscapedParameterTestVectors()
    ensures EscapedValue(GetRequestParameter(map["postKey" := Str("&test")], map[], "postKey", Null), false, false) ==
            Str("&amp;test")
    ensures EscapedValue(GetRequestParameter(map[], map[], "notExistingPostKey", Null), false, false) == Null
    ensures EscapedValue(GetRequestParameter(map[], map[], "notExistingPostKey", Str("defaultValue")), false, false) ==
            Str("defaultValue")
  {
    AmpersandTest();
    DefaultValueIsPlain();
  }

  lemma DefaultValueIsPlain()
    ensures EscapeString("defaultValue") == "defaultValue"
  {
    EscapeStringOfPlain("defaultValue");
  }

  lemma AmpersandTest()
    ensures EscapeString("&test") == "&amp;test"
  {
    assert "&test" == ['&'] + "test";
    EscapeStringConcat(['&'], "test");
    EscapeStringOfPlain("test");
  }
}
