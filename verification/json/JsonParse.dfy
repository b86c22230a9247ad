/**
 The recursive-descent parser on the remaining text. `Fail` carries the place
 the library leaves in its error pointer; `Undefined` marks a literal on which the
 two passes over it part, which the C code does not guard.
 */
module JsonParse {
  import opened CString
  import opened JsonValue
  import opened JsonString
  import opened JsonNumber

  datatype Result<+T> = Ok(value: T, rest: string) | Fail(at: string) | Undefined
  {
    predicate IsFailure() {
      !Ok?
    }

    function PropagateFailure<U>(): Result<U>
      requires IsFailure()
    {
      if Fail? then Fail(at) else Undefined
    }

    function Extract(): (T, string)
      requires !IsFailure()
    {
      (value, rest)
    }
  }

  /** `parse_string` */
  function ParseString(s: string): (r: Result<string>)
    ensures r.Ok? ==> |r.rest| < |s|
  {
    if At(s, 0) != '"' then Fail(s)
    else if !LiteralOk(s[1..]) then Undefined
    else
      var d := Unescape(s[1..]);
      Ok(d.text, if At(d.rest, 0) == '"' then d.rest[1..] else d.rest)
  }

  function ParseText(s: string): (r: Result<Json>)
    ensures r.Ok? ==> |r.rest| < |s|
  {
    var (text, rest) :- ParseString(s);
    Ok(String(text), rest)
  }

  function ParseNumeral(s: string): (r: Result<Json>)
    requires At(s, 0) == '-' || Digit(At(s, 0))
    ensures r.Ok? && |r.rest| < |s|
  {
    var n := ParseNumber(s);
    Ok(Number(n.value), n.rest)
  }

  /** `parse_value` */
  function ParseValue(s: string): (r: Result<Json>)
    ensures r.Ok? ==> |r.rest| < |s|
    decreases |s|, 0
  {
    if StartsWith(s, "null") then Ok(Null, s[4..])
    else if StartsWith(s, "false") then Ok(False, s[5..])
    else if StartsWith(s, "true") then Ok(True, s[4..])
    else if At(s, 0) == '"' then ParseText(s)
    else if At(s, 0) == '-' || Digit(At(s, 0)) then ParseNumeral(s)
    else if At(s, 0) == '[' then
      var t := Skip(s[1..]);
      if At(t, 0) == ']' then Ok(Array(NoItem), t[1..])
      else
        var (items, rest) :- ParseItems(t);
        Ok(Array(items), rest)
    else if At(s, 0) == '{' then
      var t := Skip(s[1..]);
      if At(t, 0) == '}' then Ok(Object(NoMember), t[1..])
      else
        var (members, rest) :- ParseMembers(t);
        Ok(Object(members), rest)
    else Fail(s)
  }

  /** `parse_array` from an element to the closing bracket. */
  function ParseItems(s: string): (r: Result<Items>)
    ensures r.Ok? ==> |r.rest| < |s| && r.value.Item?
    decreases |s|, 1
  {
    var (v, rest) :- ParseValue(Skip(s));
    var t := Skip(rest);
    if At(t, 0) == ',' then
      var (items, rest) :- ParseItems(t[1..]);
      Ok(Item(v, items), rest)
    else if At(t, 0) == ']' then Ok(Item(v, NoItem), t[1..])
    else Fail(t)
  }

  /** The name of a member and the colon behind it. */
  function ParseName(s: string): (r: Result<string>)
    ensures r.Ok? ==> |r.rest| < |s|
  {
    var (name, rest) :- ParseString(Skip(s));
    var t := Skip(rest);
    if At(t, 0) != ':' then Fail(t) else Ok(name, t[1..])
  }

  /** `parse_object` from a member to the closing brace. */
  function ParseMembers(s: string): (r: Result<Members>)
    ensures r.Ok? ==> |r.rest| < |s| && r.value.Member?
    decreases |s|, 1
  {
    var (name, body) :- ParseName(s);
    var (v, rest) :- ParseValue(Skip(body));
    var t := Skip(rest);
    if At(t, 0) == ',' then
      var (members, rest) :- ParseMembers(t[1..]);
      Ok(Member(name, v, members), rest)
    else if At(t, 0) == '}' then Ok(Member(name, v, NoMember), t[1..])
    else Fail(t)
  }

  /** `cJSON_ParseWithOpts` */
  function Parse(s: string, requireEnd: bool): Result<Json> {
    var (v, rest) :- ParseValue(Skip(s));
    if requireEnd then
      var t := Skip(rest);
      if At(t, 0) != NUL then Fail(t) else Ok(v, t)
    else Ok(v, rest)
  }
}
