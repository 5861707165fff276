/** Tunable shader uniforms (New/Engine/ShaderSetting.cs): a uniform
    declaration such as `uniform vec3 tint = vec3(1., 0.5, 0.);` together
    with its configuration comment `/` `* 0..1 *` `/` becomes a setting with
    a name, a type, a range and a value.

    `float.Parse` and `int.Parse` are the parameters `parseFloat` and
    `parseInt` (`None` when the text is not a number, where the library
    throws a format error); `Console.WriteLine` is left out. */
module ShaderSettings {
  import opened Wrappers

  /** `string.Split(sep)` with a non-empty separator: the pieces between
      the occurrences of `sep`, found left to right without overlap; empty
      pieces are kept. */
  function Split(s: string, sep: string): (parts: seq<string>)
    requires |sep| > 0
    ensures |parts| >= 1
    decreases |s|
  {
    if |s| < |sep| then [s]
    else if s[..|sep|] == sep then [""] + Split(s[|sep|..], sep)
    else
      var rest := Split(s[1..], sep);
      [[s[0]] + rest[0]] + rest[1..]
  }

  /** `string.Join(sep, parts)`. */
  function Join(sep: string, parts: seq<string>): string
    decreases |parts|
  {
    if |parts| == 0 then ""
    else if |parts| == 1 then parts[0]
    else parts[0] + sep + Join(sep, parts[1..])
  }

  /** Joining a piece in front of at least one more. */
  lemma JoinCons(sep: string, p: string, parts: seq<string>)
    requires |parts| >= 1
    ensures Join(sep, [p] + parts) == p + sep + Join(sep, parts)
  {
    assert ([p] + parts)[1..] == parts;
  }

  /** Joining after extending the first piece by a character in front. */
  lemma JoinExtendHead(sep: string, c: char, parts: seq<string>)
    requires |parts| >= 1
    ensures Join(sep, [[c] + parts[0]] + parts[1..]) == [c] + Join(sep, parts)
  {
    if |parts| > 1 {
      JoinCons(sep, parts[0], parts[1..]);
      JoinCons(sep, [c] + parts[0], parts[1..]);
      assert [parts[0]] + parts[1..] == parts;
    }
  }

  /** Joining the pieces with the separator gives the text back. */
  lemma {:induction false} SplitJoin(s: string, sep: string)
    requires |sep| > 0
    ensures Join(sep, Split(s, sep)) == s
    decreases |s|
  {
    if |s| < |sep| {
    } else if s[..|sep|] == sep {
      var t := s[|sep|..];
      var rest := Split(t, sep);
      assert Split(s, sep) == [""] + rest;
      SplitJoin(t, sep);
      JoinCons(sep, "", rest);
      assert s == sep + t;
    } else {
      var t := s[1..];
      var rest := Split(t, sep);
      assert Split(s, sep) == [[s[0]] + rest[0]] + rest[1..];
      SplitJoin(t, sep);
      JoinExtendHead(sep, s[0], rest);
      assert s == [s[0]] + t;
    }
  }

  /** A character other than the separator's first is glued to the front
      of the first piece. */
  lemma SplitCons(c: char, t: string, sep: string)
    requires |sep| > 0 && c != sep[0]
    ensures Split([c] + t, sep) == [[c] + Split(t, sep)[0]] + Split(t, sep)[1..]
  {
    var s := [c] + t;
    assert s[1..] == t;
    if |s| >= |sep| {
      assert s[..|sep|][0] == c;
    }
  }

  /** A piece in which the separator's first character does not occur is
      split off intact, whatever follows it. */
  lemma {:induction false} SplitPrefix(p: string, rest: string, sep: string)
    requires |sep| > 0 && sep[0] !in p
    ensures Split(p + rest, sep) == [p + Split(rest, sep)[0]] + Split(rest, sep)[1..]
    decreases |p|
  {
    var r := Split(rest, sep);
    if |p| == 0 {
      assert p + rest == rest && p + r[0] == r[0];
    } else {
      var q := p[1..] + rest;
      SplitPrefix(p[1..], rest, sep);
      assert p + rest == [p[0]] + q;
      var sq := Split(q, sep);
      assert sq[0] == p[1..] + r[0] && sq[1..] == r[1..];
      SplitCons(p[0], q, sep);
      assert [p[0]] + sq[0] == p + r[0] by {
        assert p == [p[0]] + p[1..];
      }
    }
  }

  /** Splitting a join gives the pieces back, provided no piece contains
      the separator's first character. */
  lemma {:induction false} JoinSplit(parts: seq<string>, sep: string)
    requires |sep| > 0 && |parts| >= 1
    requires forall k | 0 <= k < |parts| :: sep[0] !in parts[k]
    ensures Split(Join(sep, parts), sep) == parts
    decreases |parts|
  {
    if |parts| == 1 {
      SplitPrefix(parts[0], "", sep);
      assert parts[0] + "" == parts[0];
    } else {
      var tail := Join(sep, parts[1..]);
      JoinSplit(parts[1..], sep);
      SplitPrefix(parts[0], sep + tail, sep);
      assert (sep + tail)[..|sep|] == sep && (sep + tail)[|sep|..] == tail;
      assert Split(sep + tail, sep) == [""] + parts[1..];
      assert parts[0] + "" == parts[0];
      assert parts[0] + sep + tail == parts[0] + (sep + tail);
      assert parts == [parts[0]] + parts[1..];
    }
  }

  /** The uniform types a setting supports, and every other
      `ActiveUniformType`. */
  datatype UniformType = Float | Int | FloatVec2 | FloatVec3 | FloatVec4 | OtherType

  /** `TYPES`. */
  const Types: set<UniformType> := {Float, Int, FloatVec2, FloatVec3, FloatVec4}

  /** `GetTypeName`: the GLSL name of a supported type; others throw. */
  function GetTypeName(t: UniformType): (r: Result<string>)
    ensures r.Ok? <==> t in Types
    ensures r.Ok? ==> ' ' !in r.value
  {
    match t
    case Float => Ok("float")
    case Int => Ok("int")
    case FloatVec2 => Ok("vec2")
    case FloatVec3 => Ok("vec3")
    case FloatVec4 => Ok("vec4")
    case OtherType => Err("ArgumentOutOfRangeException")
  }

  /** `GetType(s)`: the declaration must start with the word `uniform`, and
      its second word names the type. */
  function GetType(s: string): (r: Result<UniformType>)
    ensures r.Ok? ==> r.value in Types && |Split(s, " ")| >= 2 && Split(s, " ")[0] == "uniform"
    ensures Split(s, " ")[0] != "uniform" ==> r == Err("ArgumentException")
  {
    var split := Split(s, " ");
    if split[0] != "uniform" then Err("ArgumentException")
    else if |split| < 2 then Err("IndexOutOfRangeException")
    else match split[1]
      case "float" => Ok(Float)
      case "int" => Ok(Int)
      case "vec2" => Ok(FloatVec2)
      case "vec3" => Ok(FloatVec3)
      case "vec4" => Ok(FloatVec4)
      case _ => Err("ArgumentException")
  }

  /** `GetType` and `GetTypeName` are inverse: a declaration's type word is
      the name of the type read from it, and a declaration written with a
      supported type's name reads back as that type. */
  lemma TypeNames(s: string, t: UniformType, rest: seq<string>)
    ensures GetType(s).Ok? ==> GetTypeName(GetType(s).value) == Ok(Split(s, " ")[1])
    ensures t in Types && (forall k | 0 <= k < |rest| :: ' ' !in rest[k]) ==>
      GetType(Join(" ", ["uniform", GetTypeName(t).value] + rest)) == Ok(t)
  {
    if t in Types && forall k | 0 <= k < |rest| :: ' ' !in rest[k] {
      var words := ["uniform", GetTypeName(t).value] + rest;
      JoinSplit(words, " ");
    }
  }

  /** The text `ParseFloat` hands to `float.Parse`: a trailing `.` gets a
      `0` appended. */
  function FloatText(s: string): (t: string)
    ensures |t| > 0 ==> t[|t| - 1] != '.'
    ensures t == s || (|s| > 0 && s[|s| - 1] == '.' && t == s + "0")
  {
    if |s| > 0 && s[|s| - 1] == '.' then s + "0" else s
  }

  /** Fixing the text once is enough, and text that does not end in `.` is
      passed through. */
  lemma FloatTextStable(s: string)
    ensures FloatText(FloatText(s)) == FloatText(s)
    ensures (|s| == 0 || s[|s| - 1] != '.') <==> FloatText(s) == s
  {
  }

  /** `ParseFloat(s)`. */
  function ParseFloat(parseFloat: string -> Option<real>, s: string): (r: Result<real>)
    ensures r.Ok? <==> parseFloat(FloatText(s)).Some?
    ensures r.Ok? ==> r.value == parseFloat(FloatText(s)).value
  {
    match parseFloat(FloatText(s))
    case None => Err("FormatException")
    case Some(f) => Ok(f)
  }

  /** Parses the pieces in order; the first that fails makes it throw. */
  function ParseAll(parseFloat: string -> Option<real>, parts: seq<string>): (r: Result<seq<real>>)
    ensures r.Ok? <==> forall k | 0 <= k < |parts| :: ParseFloat(parseFloat, parts[k]).Ok?
    ensures r.Ok? ==> |r.value| == |parts| && forall k | 0 <= k < |parts| :: r.value[k] == ParseFloat(parseFloat, parts[k]).value
    decreases |parts|
  {
    if |parts| == 0 then Ok([])
    else match ParseFloat(parseFloat, parts[0])
      case Err(m) => Err(m)
      case Ok(f) =>
        match ParseAll(parseFloat, parts[1..])
        case Err(m) => Err(m)
        case Ok(fs) => Ok([f] + fs)
  }

  /** `ParseVec2`, `ParseVec3`, `ParseVec4` for `n` = 2, 3, 4: drop the
      first five characters (`vecN(`) and the last, split the rest on
      `", "`; one number is broadcast to all `n` components, exactly `n`
      numbers are used in order, any other count throws. */
  function ParseVec(parseFloat: string -> Option<real>, n: nat, s: string): (r: Result<seq<real>>)
    requires 2 <= n <= 4
    ensures r.Ok? ==> |s| >= 6 && |r.value| == n
    ensures r.Ok? ==> var parts := Split(s[5..|s| - 1], ", ");
      && (|parts| == 1 || |parts| == n)
      && (|parts| == 1 ==>
            (ParseFloat(parseFloat, parts[0]).Ok? && forall k | 0 <= k < n :: r.value[k] == ParseFloat(parseFloat, parts[0]).value))
      && (|parts| == n ==> forall k | 0 <= k < n ::
            ParseFloat(parseFloat, parts[k]).Ok? && r.value[k] == ParseFloat(parseFloat, parts[k]).value)
    ensures |s| >= 6 && |Split(s[5..|s| - 1], ", ")| !in {1, n} ==> r == Err("ArgumentException")
  {
    if |s| < 6 then Err("ArgumentOutOfRangeException")
    else
      var parts := Split(s[5..|s| - 1], ", ");
      if |parts| == 1 then
        match ParseFloat(parseFloat, parts[0])
        case Err(m) => Err(m)
        case Ok(f) => Ok(seq(n, _ => f))
      else if |parts| == n then ParseAll(parseFloat, parts)
      else Err("ArgumentException")
  }

  /** A vector written as its five-character head, the numbers joined with
      `", "` and a closing character reads back as those numbers, provided
      none of them contains a comma. */
  lemma ParseVecWritten(parseFloat: string -> Option<real>, n: nat, head: string, nums: seq<string>, close: char)
    requires 2 <= n <= 4 && |head| == 5 && |nums| == n
    requires forall k | 0 <= k < n :: ',' !in nums[k] && ParseFloat(parseFloat, nums[k]).Ok?
    ensures var r := ParseVec(parseFloat, n, head + Join(", ", nums) + [close]);
      r.Ok? && forall k | 0 <= k < n :: r.value[k] == ParseFloat(parseFloat, nums[k]).value
  {
    var s := head + Join(", ", nums) + [close];
    assert s[5..|s| - 1] == Join(", ", nums);
    JoinSplit(nums, ", ");
  }

  /** The configuration comment with its delimiters removed: two leading
      characters, then one space if present, a trailing star-slash if
      present, and one trailing space if present. Each step only narrows
      the slice `config[i..j]`. */
  function ConfigText(config: string): (r: Result<string>)
    ensures r.Ok? <==> |config| >= 2
    ensures r.Ok? ==> exists i, j | 2 <= i <= j <= |config| :: r.value == config[i..j]
  {
    if |config| < 2 then Err("ArgumentOutOfRangeException")
    else
      var i := if |config| > 2 && config[2] == ' ' then 3 else 2;
      var j0 := |config|;
      var j1 := if j0 - i >= 2 && config[j0 - 2..j0] == "*/" then j0 - 2 else j0;
      var j2 := if j1 - i > 0 && config[j1 - 1] == ' ' then j1 - 1 else j1;
      Ok(config[i..j2])
  }

  /** The range `Min..Max` of the configuration comment. */
  function ConfigRange(parseFloat: string -> Option<real>, config: string): (r: Result<(real, real)>)
    ensures r.Ok? ==> ConfigText(config).Ok? && |Split(ConfigText(config).value, "..")| >= 2
    ensures r.Ok? ==> var parts := Split(ConfigText(config).value, "..");
      parseFloat(parts[0]) == Some(r.value.0) && parseFloat(parts[1]) == Some(r.value.1)
  {
    match ConfigText(config)
    case Err(m) => Err(m)
    case Ok(c) =>
      var split := Split(c, "..");
      match parseFloat(split[0])
      case None => Err("FormatException")
      case Some(min) =>
        if |split| < 2 then Err("IndexOutOfRangeException")
        else match parseFloat(split[1])
          case None => Err("FormatException")
          case Some(max) => Ok((min, max))
  }

  /** The value text of a declaration: its words from the fifth on, joined
      by spaces, without the last character (the `;`). */
  function ValueText(line: string): (r: Result<string>)
    ensures r.Ok? ==> |Split(line, " ")| >= 4
    ensures r.Ok? ==> var joined := Join(" ", Split(line, " ")[4..]);
      |joined| == |r.value| + 1 && r.value == joined[..|r.value|]
  {
    var words := Split(line, " ");
    if |words| < 4 then Err("ArgumentOutOfRangeException")
    else
      var joined := Join(" ", words[4..]);
      if |joined| == 0 then Err("ArgumentOutOfRangeException")
      else
        Ok(joined[..|joined| - 1])
  }

  /** A setting's value, by type. */
  datatype SettingValue = FloatValue(f: real) | IntValue(i: int) | VecValue(v: seq<real>)

  /** `ShaderSetting` and its five subclasses. */
  datatype Setting = Setting(name: string, kind: UniformType, min: real, max: real, value: SettingValue)

  /** The value's shape matches the type: a float, an int, or a vector of
      2, 3 or 4 components. */
  predicate Shaped(kind: UniformType, v: SettingValue) {
    match kind
    case Float => v.FloatValue?
    case Int => v.IntValue?
    case FloatVec2 => v.VecValue? && |v.v| == 2
    case FloatVec3 => v.VecValue? && |v.v| == 3
    case FloatVec4 => v.VecValue? && |v.v| == 4
    case OtherType => false
  }

  /** The subclass constructor's value: `ParseFloat`, `int.Parse` or
      `ParseVecN` of the value text. */
  function ParseValue(parseFloat: string -> Option<real>, parseInt: string -> Option<int>, kind: UniformType, text: string): (r: Result<SettingValue>)
    requires kind in Types
    ensures r.Ok? ==> Shaped(kind, r.value)
  {
    match kind
    case Float => (match ParseFloat(parseFloat, text)
                   case Err(m) => Err(m)
                   case Ok(f) => Ok(FloatValue(f)))
    case Int => (match parseInt(text)
                 case None => Err("FormatException")
                 case Some(i) => Ok(IntValue(i)))
    case FloatVec2 => (match ParseVec(parseFloat, 2, text)
                       case Err(m) => Err(m)
                       case Ok(v) => Ok(VecValue(v)))
    case FloatVec3 => (match ParseVec(parseFloat, 3, text)
                       case Err(m) => Err(m)
                       case Ok(v) => Ok(VecValue(v)))
    case FloatVec4 => (match ParseVec(parseFloat, 4, text)
                       case Err(m) => Err(m)
                       case Ok(v) => Ok(VecValue(v)))
  }

  /** `Read(config, line)`: the third word must exist, the type is read,
      then the base constructor parses the range and takes the name, and
      the subclass for the type parses the value. */
  function Read(parseFloat: string -> Option<real>, parseInt: string -> Option<int>, config: string, line: string): (r: Result<Setting>)
    ensures r.Ok? ==> |Split(line, " ")| >= 4 && r.value.name == Split(line, " ")[2]
    ensures r.Ok? ==> GetType(line) == Ok(r.value.kind) && Shaped(r.value.kind, r.value.value)
    ensures r.Ok? ==> ConfigRange(parseFloat, config) == Ok((r.value.min, r.value.max))
    ensures r.Ok? ==> ValueText(line).Ok? && ParseValue(parseFloat, parseInt, r.value.kind, ValueText(line).value) == Ok(r.value.value)
    ensures |Split(line, " ")| < 3 ==> r == Err("IndexOutOfRangeException")
  {
    var words := Split(line, " ");
    if |words| < 3 then Err("IndexOutOfRangeException")
    else match GetType(line)
      case Err(m) => Err(m)
      case Ok(kind) =>
        match ConfigRange(parseFloat, config)
        case Err(m) => Err(m)
        case Ok((min, max)) =>
          match ValueText(line)
          case Err(m) => Err(m)
          case Ok(text) =>
            match ParseValue(parseFloat, parseInt, kind, text)
            case Err(m) => Err(m)
            case Ok(v) => Ok(Setting(words[2], kind, min, max, v))
  }

  /** A declaration `uniform <type> <name> = <value>;` written as words
      without spaces, with a well-formed comment, reads back as a setting
      of that type and name whose value is parsed from `<value>`. */
  lemma ReadWritten(parseFloat: string -> Option<real>, parseInt: string -> Option<int>, config: string,
                    t: UniformType, name: string, value: string)
    requires t in Types && ' ' !in name && ' ' !in value
    requires ConfigRange(parseFloat, config).Ok?
    requires ParseValue(parseFloat, parseInt, t, value).Ok?
    ensures var line := Join(" ", ["uniform", GetTypeName(t).value, name, "=", value + ";"]);
      && Read(parseFloat, parseInt, config, line).Ok?
      && Read(parseFloat, parseInt, config, line).value
           == Setting(name, t, ConfigRange(parseFloat, config).value.0, ConfigRange(parseFloat, config).value.1,
                      ParseValue(parseFloat, parseInt, t, value).value)
  {
    var words := ["uniform", GetTypeName(t).value, name, "=", value + ";"];
    var line := Join(" ", words);
    JoinSplit(words, " ");
    TypeNames(line, t, words[2..]);
    assert ["uniform", GetTypeName(t).value] + words[2..] == words;
    assert words[4..] == [value + ";"];
    assert (value + ";")[..|value|] == value;
  }
}
