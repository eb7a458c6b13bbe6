/** Configuration codes: `ConfigurationModel.save` and `user_code_to_file_name`. */
module CodeNaming {
  import opened Text

  predicate IsAlnum(c: char) {
    'a' <= c <= 'z' || 'A' <= c <= 'Z' || '0' <= c <= '9'
  }

  /** `re.sub(r"[^A-Za-z0-9]+", "_", code)`: the flag tells whether the run before s is already replaced. */
  function Collapse(s: string, inRun: bool): string {
    if s == [] then []
    else if IsAlnum(s[0]) then [s[0]] + Collapse(s[1..], false)
    else (if inRun then [] else "_") + Collapse(s[1..], true)
  }

  /** `replace_special_chars_and_spaces`. */
  function ReplaceSpecial(code: string): string {
    Collapse(code, false)
  }

  function LowerChar(c: char): char {
    if 'A' <= c <= 'Z' then c - 'A' + 'a' else c
  }

  /** `str.lower()` on the ASCII text that ReplaceSpecial leaves. */
  function Lower(s: string): (r: string)
    ensures |r| == |s| && forall i | 0 <= i < |s| :: r[i] == LowerChar(s[i])
  {
    if s == [] then [] else [LowerChar(s[0])] + Lower(s[1..])
  }

  function Sanitise(code: string): string {
    Lower(ReplaceSpecial(code))
  }

  /** Lower-case letters, digits and single underscores. */
  predicate IsSanitised(s: string) {
    && (forall i | 0 <= i < |s| :: s[i] == '_' || 'a' <= s[i] <= 'z' || '0' <= s[i] <= '9')
    && (forall i | 0 <= i < |s| - 1 :: !(s[i] == '_' && s[i + 1] == '_'))
  }

  /** Letters, digits and single underscores. */
  predicate IsClean(s: string) {
    && (forall i | 0 <= i < |s| :: s[i] == '_' || IsAlnum(s[i]))
    && (forall i | 0 <= i < |s| - 1 :: !(s[i] == '_' && s[i + 1] == '_'))
  }

  lemma ConsClean(c: char, t: string)
    requires IsClean(t) && (c == '_' || IsAlnum(c)) && (c == '_' && t != [] ==> t[0] != '_')
    ensures IsClean([c] + t)
  {
    var s := [c] + t;
    forall i | 0 <= i < |s|
      ensures s[i] == '_' || IsAlnum(s[i])
      ensures i < |s| - 1 ==> !(s[i] == '_' && s[i + 1] == '_')
    {
      if i > 0 {
        assert s[i] == t[i - 1];
        assert i < |t| ==> s[i + 1] == t[i];
      }
    }
  }

  lemma {:induction false} CollapseClean(s: string, inRun: bool)
    ensures IsClean(Collapse(s, inRun))
    ensures inRun && Collapse(s, inRun) != [] ==> Collapse(s, inRun)[0] != '_'
    decreases s
  {
    if s != [] {
      hide IsClean;
      var t := Collapse(s[1..], !IsAlnum(s[0]));
      CollapseClean(s[1..], !IsAlnum(s[0]));
      if IsAlnum(s[0]) {
        ConsClean(s[0], t);
      } else if !inRun {
        ConsClean('_', t);
        assert Collapse(s, inRun) == ['_'] + t;
      } else {
        assert Collapse(s, inRun) == t;
      }
    } else {
      assert Collapse(s, inRun) == [];
    }
  }

  lemma LowerClean(r: string)
    requires IsClean(r)
    ensures IsSanitised(Lower(r))
  {
    var s := Lower(r);
    assert forall i | 0 <= i < |r| :: s[i] == LowerChar(r[i]) && (s[i] == '_' ==> r[i] == '_');
  }

  lemma {:induction false} CollapseKeeps(s: string, inRun: bool)
    requires IsSanitised(s) && (inRun && s != [] ==> s[0] != '_')
    ensures Collapse(s, inRun) == s
    decreases s
  {
    if s != [] {
      assert forall i | 0 <= i < |s[1..]| :: s[1..][i] == s[i + 1];
      CollapseKeeps(s[1..], !IsAlnum(s[0]));
    }
  }

  lemma SanitiseClean(code: string)
    ensures IsSanitised(Sanitise(code))
  {
    CollapseClean(code, false);
    LowerClean(ReplaceSpecial(code));
  }

  /** Sanitising twice is sanitising once, and only sanitised text is left unchanged. */
  lemma SanitiseIdempotent(code: string)
    ensures Sanitise(Sanitise(code)) == Sanitise(code)
    ensures Sanitise(code) == code <==> IsSanitised(code)
  {
    SanitiseClean(code);
    SanitisedIsKept(Sanitise(code));
    if IsSanitised(code) {
      SanitisedIsKept(code);
    }
  }

  lemma SanitisedIsKept(s: string)
    requires IsSanitised(s)
    ensures Sanitise(s) == s
  {
    CollapseKeeps(s, false);
  }

  function Alnums(s: string): string {
    if s == [] then [] else (if IsAlnum(s[0]) then [s[0]] else []) + Alnums(s[1..])
  }

  /** Sanitising keeps every letter and digit, in order, in lower case. */
  lemma {:induction false} SanitiseKeepsAlnums(s: string, inRun: bool)
    ensures Alnums(Lower(Collapse(s, inRun))) == Lower(Alnums(s))
    decreases s
  {
    if s != [] {
      var r := Collapse(s[1..], !IsAlnum(s[0]));
      SanitiseKeepsAlnums(s[1..], !IsAlnum(s[0]));
      if IsAlnum(s[0]) {
        LowerCons(s[0], r);
        LowerCons(s[0], Alnums(s[1..]));
        assert ([LowerChar(s[0])] + Lower(r))[1..] == Lower(r);
      } else if !inRun {
        LowerCons('_', r);
        assert (['_'] + Lower(r))[1..] == Lower(r);
        assert Collapse(s, inRun) == ['_'] + r;
      } else {
        assert Collapse(s, inRun) == r;
      }
    }
  }

  lemma LowerCons(c: char, s: string)
    ensures Lower([c] + s) == [LowerChar(c)] + Lower(s)
  {
    assert ([c] + s)[1..] == s;
  }

  lemma {:induction false} AlnumsConcat(a: string, b: string)
    ensures Alnums(a + b) == Alnums(a) + Alnums(b)
    decreases a
  {
    hide IsAlnum;
    if a == [] {
      assert a + b == b;
    } else {
      var head, rest := if IsAlnum(a[0]) then [a[0]] else [], a[1..];
      assert a + b == [a[0]] + (rest + b);
      assert (a + b)[1..] == rest + b;
      AlnumsConcat(rest, b);
      assert head + (Alnums(rest) + Alnums(b)) == (head + Alnums(rest)) + Alnums(b);
    }
  }

  // ----- ConfigurationModel.save

  datatype Option<+T> = None | Some(value: T)

  datatype Outcome = Saved | UserCodeRequired

  /** The configuration code a save settles on; spaceCode is the master user's, where there is one. */
  function SettledConfiguration(configurationCode: string, spaceCode: Option<string>): string {
    if configurationCode == "" && spaceCode.Some? then "local.poms." + spaceCode.value else configurationCode
  }

  /** An object keeps its configuration code; one without gets the local one of its space, and so never stays without. */
  lemma SettledMeaning(configurationCode: string, space: string)
    ensures configurationCode != "" ==> SettledConfiguration(configurationCode, Some(space)) == configurationCode
    ensures SettledConfiguration("", Some("space00000")) == "local.poms.space00000"
    ensures SettledConfiguration("", Some(space)) == "local.poms." + space
    ensures SettledConfiguration(configurationCode, Some(space)) != ""
    ensures SettledConfiguration(configurationCode, None) == configurationCode
  {
  }

  /** The user code a save leaves. */
  function Qualified(configurationCode: string, userCode: string): string {
    if Occurs(configurationCode, userCode) then userCode else configurationCode + ":" + Sanitise(userCode)
  }

  class ConfigurationModel {
    var configurationCode: string
    var userCode: Option<string>
    var spaceCode: Option<string>

    constructor (configurationCode: string, userCode: Option<string>, spaceCode: Option<string>)
      ensures this.configurationCode == configurationCode && this.userCode == userCode && this.spaceCode == spaceCode
    {
      this.configurationCode, this.userCode, this.spaceCode := configurationCode, userCode, spaceCode;
    }

    /** `save`, up to the write of the row. */
    method Save() returns (r: Outcome)
      modifies this`configurationCode, this`userCode
      ensures configurationCode == SettledConfiguration(old(configurationCode), spaceCode)
      ensures r == UserCodeRequired <==> old(userCode) == None || old(userCode) == Some("")
      ensures userCode == if r == Saved then Some(Qualified(configurationCode, old(userCode).value)) else old(userCode)
    {
      if configurationCode == "" && spaceCode.Some? {
        configurationCode := "local.poms." + spaceCode.value;
      }
      if userCode == None || userCode == Some("") {
        return UserCodeRequired;
      }
      if !Occurs(configurationCode, userCode.value) {
        userCode := Some(Sanitise(userCode.value));
        userCode := Some(configurationCode + ":" + userCode.value);
      }
      return Saved;
    }
  }

  /** Saving a saved code changes nothing, and the code always carries its configuration. */
  lemma QualifiedIdempotent(configurationCode: string, userCode: string)
    ensures Occurs(configurationCode, Qualified(configurationCode, userCode))
    ensures Qualified(configurationCode, Qualified(configurationCode, userCode)) == Qualified(configurationCode, userCode)
  {
    hide Sanitise, Occurs;
    var rest := ":" + Sanitise(userCode);
    OccursInside("", configurationCode, rest);
    assert "" + configurationCode + rest == configurationCode + ":" + Sanitise(userCode);
  }

  /** A second save of the same object leaves it as the first one did. */
  method SaveTwice(m: ConfigurationModel) returns (r: Outcome, s: Outcome)
    modifies m
    ensures r == s && (r == UserCodeRequired <==> old(m.userCode) == None || old(m.userCode) == Some(""))
    ensures r == Saved ==> m.userCode == Some(Qualified(m.configurationCode, old(m.userCode).value))
  {
    r := m.Save();
    if r == Saved {
      QualifiedIdempotent(m.configurationCode, old(m.userCode).value);
      QualifiedNonEmpty(m.configurationCode, old(m.userCode).value);
    }
    s := m.Save();
  }

  lemma QualifiedNonEmpty(configurationCode: string, userCode: string)
    requires userCode != ""
    ensures Qualified(configurationCode, userCode) != ""
  {
  }

  // ----- user_code_to_file_name

  /** `user_code.split(separator)[1]`, where the separator occurs at all. */
  function SecondPart(userCode: string, separator: string): Option<string>
    requires separator != []
  {
    match Find(userCode, separator)
    case Nowhere => None
    case At(i) =>
      var rest := userCode[i + |separator|..];
      match Find(rest, separator)
      case Nowhere => Some(rest)
      case At(j) => Some(rest[..j])
  }

  /**
   What splitting at a separator gives as its second part: the text between its first occurrence and
   the next, or the end; there is none exactly when the separator does not occur.
   */
  lemma SecondPartMeaning(userCode: string, separator: string)
    requires separator != []
    ensures match SecondPart(userCode, separator)
            case None => !Occurs(separator, userCode)
            case Some(part) => Occurs(separator, userCode) && IsSecondPart(userCode, separator, part)
  {
    hide Occurs, IsSecondPart, SecondAt, FirstAt;
    match Find(userCode, separator)
    case Nowhere =>
    case At(i) =>
      FirstOccurs(userCode, separator, i);
      var rest := userCode[i + |separator|..];
      match Find(rest, separator)
      case Nowhere => SecondToEnd(userCode, separator, i);
      case At(j) => SecondToNext(userCode, separator, i, j);
  }

  lemma FirstOccurs(s: string, pattern: string, i: nat)
    requires FirstAt(s, pattern, i)
    ensures Occurs(pattern, s)
  {
  }

  lemma SecondToEnd(userCode: string, separator: string, i: nat)
    requires separator != [] && FirstAt(userCode, separator, i)
    requires !Occurs(separator, userCode[i + |separator|..])
    ensures IsSecondPart(userCode, separator, userCode[i + |separator|..])
  {
    hide Occurs, FirstAt;
    FitsAt(userCode, separator, i);
    assert SecondAt(userCode, separator, userCode[i + |separator|..], i);
  }

  lemma FitsAt(s: string, pattern: string, i: nat)
    requires FirstAt(s, pattern, i)
    ensures i + |pattern| <= |s| && pattern <= s[i..]
  {
  }

  lemma SecondToNext(userCode: string, separator: string, i: nat, j: nat)
    requires separator != [] && FirstAt(userCode, separator, i) && i + |separator| <= |userCode|
    requires FirstAt(userCode[i + |separator|..], separator, j) && j <= |userCode[i + |separator|..]|
    ensures IsSecondPart(userCode, separator, userCode[i + |separator|..][..j])
  {
    var rest := userCode[i + |separator|..];
    if Occurs(separator, rest[..j]) {
      OccursEarlier(separator, rest, j);
    }
    hide Occurs, FirstAt;
    FitsAt(rest, separator, j);
    assert userCode[i + |separator| + j..] == rest[j..];
    assert SecondAt(userCode, separator, rest[..j], i);
  }

  lemma OccursEarlier(pattern: string, s: string, j: nat)
    requires j <= |s| && pattern != [] && Occurs(pattern, s[..j])
    ensures exists k :: 0 <= k < j && pattern <= s[k..]
  {
    var k :| 0 <= k <= j && pattern <= s[..j][k..];
    assert s[k..][..j - k] == s[..j][k..];
    assert pattern <= s[k..];
  }

  /** part stands between the separator at i, which is the first, and the next one or the end. */
  ghost predicate SecondAt(userCode: string, separator: string, part: string, i: nat) {
    var start := i + |separator|;
    && start + |part| <= |userCode| && FirstAt(userCode, separator, i)
    && part == userCode[start..start + |part|] && !Occurs(separator, part)
    && (start + |part| == |userCode| || separator <= userCode[start + |part|..])
  }

  ghost predicate IsSecondPart(userCode: string, separator: string, part: string) {
    exists i :: SecondAt(userCode, separator, part, i)
  }

  /** `user_code_to_file_name`. */
  function FileName(configurationCode: string, userCode: string): string {
    match SecondPart(userCode, configurationCode + ":")
    case None => Sanitise(userCode)
    case Some(code) => Sanitise(code)
  }

  lemma OccursMembers(pattern: string, s: string)
    ensures Occurs(pattern, s) ==> forall c | c in pattern :: c in s
  {
    if Occurs(pattern, s) {
      var i :| 0 <= i <= |s| && pattern <= s[i..];
      forall c | c in pattern
        ensures c in s
      {
        var k :| 0 <= k < |pattern| && pattern[k] == c;
        assert s[i + k] == c;
      }
    }
  }

  lemma NoColonInSanitised(s: string, separator: string)
    requires IsSanitised(s) && ':' in separator
    ensures !Occurs(separator, s)
  {
    assert ':' !in s;
    OccursMembers(separator, s);
  }

  /** The first and only separator of a freshly qualified code stands in front of the sanitised code. */
  lemma SecondPartOfQualified(configurationCode: string, clean: string)
    requires IsSanitised(clean)
    ensures SecondPart(configurationCode + ":" + clean, configurationCode + ":") == Some(clean)
  {
    var separator := configurationCode + ":";
    var code := configurationCode + ":" + clean;
    assert code == separator + clean;
    assert code[0..] == code && separator <= code;
    OccursInside("", separator, clean);
    assert "" + separator + clean == code;
    var found := Find(code, separator);
    assert found == At(0);
    assert code[|separator|..] == clean;
    assert separator[|configurationCode|] == ':';
    NoColonInSanitised(clean, separator);
  }

  /**
   The file name of a saved code is the sanitised raw code, as long as the raw code does not already
   contain the configuration code followed by a colon.
   */
  lemma FileNameOfSaved(configurationCode: string, userCode: string)
    requires !Occurs(configurationCode + ":", userCode)
    ensures FileName(configurationCode, Qualified(configurationCode, userCode)) == Sanitise(userCode)
  {
    if !Occurs(configurationCode, userCode) {
      SanitiseClean(userCode);
      SecondPartOfQualified(configurationCode, Sanitise(userCode));
      SanitisedIsKept(Sanitise(userCode));
    }
  }

  /** For a configuration code with a letter or digit that is the exact condition. */
  lemma FileNameOfSavedExactly(configurationCode: string, userCode: string)
    requires Alnums(configurationCode) != ""
    ensures FileName(configurationCode, Qualified(configurationCode, userCode)) == Sanitise(userCode)
            <==> !Occurs(configurationCode + ":", userCode)
  {
    if Occurs(configurationCode + ":", userCode) {
      ConfigurationOccurs(configurationCode, userCode);
      LosesTheSeparator(configurationCode, userCode);
    } else {
      FileNameOfSaved(configurationCode, userCode);
    }
  }

  lemma LosesTheSeparator(configurationCode: string, userCode: string)
    requires Alnums(configurationCode) != "" && Occurs(configurationCode + ":", userCode)
    ensures FileName(configurationCode, userCode) != Sanitise(userCode)
  {
    hide Alnums, Occurs, Collapse, Lower;
    var separator := configurationCode + ":";
    var found := Find(userCode, separator);
    var part := SecondPart(userCode, separator).value;
    PartIsShorter(userCode, separator, found.index, part);
    AlnumsConcat(configurationCode, ":");
    SanitiseKeepsAlnums(part, false);
    SanitiseKeepsAlnums(userCode, false);
    assert |Alnums(Sanitise(part))| < |Alnums(Sanitise(userCode))|;
  }

  lemma ConfigurationOccurs(configurationCode: string, userCode: string)
    requires Occurs(configurationCode + ":", userCode)
    ensures Occurs(configurationCode, userCode)
  {
    var i :| 0 <= i <= |userCode| && configurationCode + ":" <= userCode[i..];
    assert configurationCode <= userCode[i..];
  }

  /** What follows a separator has fewer letters and digits than the whole by the separator's own. */
  lemma PartIsShorter(s: string, separator: string, i: nat, part: string)
    requires i + |separator| <= |s| && separator <= s[i..]
    requires part <= s[i + |separator|..]
    ensures |Alnums(part)| + |Alnums(separator)| <= |Alnums(s)|
  {
    var rest := s[i + |separator|..];
    assert s == s[..i] + (separator + (part + rest[|part|..]));
    AlnumsConcat(s[..i], separator + (part + rest[|part|..]));
    AlnumsConcat(separator, part + rest[|part|..]);
    AlnumsConcat(part, rest[|part|..]);
  }
}
