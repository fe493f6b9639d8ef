/**
 * The checks a component passes before it reaches the registry:
 * `service` and `factory` check the value's type (src/Angie.js), and
 * `directive` drops a non-string `Controller` or rejects an "api view"
 * directive that has none (src/Angie.js and src/Angular.js alike).
 */
module Admission {
  import opened Js
  import opened Wrappers
  import Text

  /** What the registry's public operations throw. */
  datatype Thrown =
    | InvalidServiceConfig(name: string)
    | InvalidFactoryConfig(name: string)
    | InvalidDirectiveConfig(name: string)
      /** The engine's own error: a property of undefined or null was read. */
    | TypeError

  /** `service(name, obj)` of src/Angie.js: the value must have `typeof` "object". */
  function AdmitService(name: string, obj: Value): (r: Result<Value, Thrown>)
    ensures r.Success? <==> obj.Obj? || obj.Null?
    ensures r.Success? ==> r.value == obj
    ensures r.Failure? ==> r.error == InvalidServiceConfig(name)
  {
    if TypeOf(obj) != "object" then Failure(InvalidServiceConfig(name)) else Success(obj)
  }

  /** `factory(name, obj)`: the value must be a function whose `prototype` is truthy. */
  function AdmitFactory(name: string, obj: Value): (r: Result<Value, Thrown>)
    ensures r.Success? <==> obj.Func? && obj.hasPrototype
    ensures r.Success? ==> r.value == obj
    ensures r.Failure? ==> r.error == InvalidFactoryConfig(name)
  {
    if TypeOf(obj) != "function" || !obj.hasPrototype then Failure(InvalidFactoryConfig(name))
    else Success(obj)
  }

  /** The line terminators that `.` in a JavaScript regular expression does not match. */
  predicate LineTerminator(c: char) {
    c == '\n' || c == '\r' || c == '\U{2028}' || c == '\U{2029}'
  }

  /**
   * A character JavaScript stores as one UTF-16 code unit. Without the `u`
   * flag, `.` consumes one code unit, so it never matches a character outside
   * the Basic Multilingual Plane, which takes two.
   */
  predicate SingleCodeUnit(c: char) {
    c as int < 0x1_0000
  }

  /**
   * `/api.?view/i` matches `s` at position `k`. Every other character of the
   * pattern is ASCII, so a match in the UTF-16 form of `s` is a match here.
   */
  predicate ApiViewAt(s: string, k: nat) {
    || Text.MatchesAt(s, k, "apiview")
    || (Text.MatchesAt(s, k, "api") && k + 3 < |s|
        && !LineTerminator(s[k + 3]) && SingleCodeUnit(s[k + 3])
        && Text.MatchesAt(s, k + 4, "view"))
  }

  /** Scans `s` from position `k` for a match of `/api.?view/i`. */
  function ApiViewFrom(s: string, k: nat): (found: bool)
    ensures found <==> exists i :: k <= i && ApiViewAt(s, i)
    decreases |s| - k
  {
    if |s| <= k then
      assert forall i :: k <= i ==> !ApiViewAt(s, i);
      false
    else
      ApiViewAt(s, k) || ApiViewFrom(s, k + 1)
  }

  /**
   * `/api.?view/i.test(v)`, which first converts `v` to a string. A number's
   * decimal form (digits, sign, '.', 'e') never contains "api".
   */
  function ApiViewType(v: Value): (r: bool)
    ensures r ==> v.Str? || v.Func? || v.Obj?
    ensures v.Str? ==> (r <==> exists i: nat :: ApiViewAt(v.s, i))
  {
    match v
    case Undefined => NoApiViewIn("undefined"); ApiViewFrom("undefined", 0)
    case Null => NoApiViewIn("null"); ApiViewFrom("null", 0)
    case Bool(b) =>
      var t := if b then "true" else "false";
      NoApiViewIn(t); ApiViewFrom(t, 0)
    case Num(_) => false
    case NaN => NoApiViewIn("NaN"); ApiViewFrom("NaN", 0)
    case Str(s) => ApiViewFrom(s, 0)
    case Func(_, source, _) => ApiViewFrom(source, 0)
    case Obj(_, _, text) => ApiViewFrom(text, 0)
  }

  /**
   * The body of `directive(name, obj)` before registration, applied to the
   * definition `dir` (the object itself, or what the injector produced from a
   * factory-style directive). Reading `hasOwnProperty` of undefined or null
   * throws; an own `Controller` that is not a string is deleted; without an
   * own `Controller`, an api-view `type` is a configuration error.
   */
  function CheckDirective(name: string, dir: Value): (r: Result<Value, Thrown>)
    ensures r == Failure(TypeError) <==> dir.Undefined? || dir.Null?
    ensures r == Failure(InvalidDirectiveConfig(name)) <==>
              dir.Obj? && "Controller" !in dir.props && ApiViewType(Prop(dir, "type"))
    ensures r.Failure? ==> r.error in {TypeError, InvalidDirectiveConfig(name)}
    // a definition that passes keeps its identity and every property but a non-string Controller
    ensures r.Success? && !dir.Obj? ==> r.value == dir
    ensures r.Success? && dir.Obj? ==>
              && r.value.Obj? && r.value.id == dir.id && r.value.text == dir.text
              && r.value.props - {"Controller"} == dir.props - {"Controller"}
              && ("Controller" in r.value.props <==>
                    "Controller" in dir.props && dir.props["Controller"].Str?)
              && ("Controller" in r.value.props ==>
                    r.value.props["Controller"] == dir.props["Controller"])
  {
    match dir
    case Undefined => Failure(TypeError)
    case Null => Failure(TypeError)
    case Obj(id, props, text) =>
      if "Controller" in props then
        if props["Controller"].Str? then Success(dir)
        else Success(Obj(id, props - {"Controller"}, text))
      else if ApiViewType(Prop(dir, "type")) then Failure(InvalidDirectiveConfig(name))
      else Success(dir)
    case _ => Success(dir)
  }

  /** A string shorter than "apiview" or without an 'a' or 'A' never matches. */
  lemma NoApiViewIn(s: string)
    requires |s| < 7 || forall j :: 0 <= j < |s| ==> Text.Lower(s[j]) != 'a'
    ensures !ApiViewFrom(s, 0)
  {
    forall i: nat ensures !ApiViewAt(s, i) {
      ApiViewAtStartsWithA(s, i);
    }
  }

  /** Every match spans at least seven characters and starts with an 'a' or 'A'. */
  lemma ApiViewAtStartsWithA(s: string, i: nat)
    ensures ApiViewAt(s, i) ==> i + 7 <= |s| && Text.Lower(s[i]) == 'a'
  {
    if Text.MatchesAt(s, i, "apiview") {
      assert Text.Lower(s[i + 0]) == Text.Lower("apiview"[0]);
    }
    if Text.MatchesAt(s, i, "api") {
      assert Text.Lower(s[i + 0]) == Text.Lower("api"[0]);
    }
  }

  /** A string whose only 'a' or 'A' is its first character can match only at 0. */
  lemma NoApiViewAfterFirst(s: string)
    requires forall j :: 0 < j < |s| ==> Text.Lower(s[j]) != 'a'
    ensures forall i: nat :: ApiViewAt(s, i) ==> i == 0
  {
    forall i: nat | ApiViewAt(s, i) ensures i == 0 {
      assert Text.MatchesAt(s, i, "api") by {
        if Text.MatchesAt(s, i, "apiview") {
          assert "apiview"[..3] == "api";
        }
      }
      assert Text.Lower(s[i + 0]) == Text.Lower("api"[0]);
    }
  }

  /** The case of the letters and one character between "api" and "view" do not matter. */
  lemma ApiViewExamples()
    ensures ApiViewType(Str("ApiView"))
    ensures ApiViewType(Str("my-API_view"))
  {
    assert ApiViewAt("ApiView", 0);
    assert ApiViewAt("my-API_view", 3);
  }

  /**
   * The character between "api" and "view" must be one UTF-16 code unit: an
   * emoji there takes two, and the pattern does not match.
   */
  lemma ApiViewNotAcrossAstral()
    ensures !ApiViewType(Str("api\U{1F600}view"))
  {
    var s := "api\U{1F600}view";
    NoApiViewAfterFirst(s);
    assert !Text.MatchesAt(s, 0, "apiview") by {
      assert Text.Lower(s[3]) != Text.Lower("apiview"[3]);
    }
    assert !SingleCodeUnit(s[3]);
  }

  /** The character between "api" and "view" may not be a line break. */
  lemma ApiViewNotAcrossLines()
    ensures !ApiViewType(Str("api\nview"))
  {
    var s := "api\nview";
    NoApiViewAfterFirst(s);
    assert !Text.MatchesAt(s, 0, "apiview") by {
      assert Text.Lower(s[3]) != Text.Lower("apiview"[3]);
    }
    assert LineTerminator(s[3]);
  }
}
