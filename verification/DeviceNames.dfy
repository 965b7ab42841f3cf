/** The names the root listing prints and the parser that reads them back out of a path. */
module DeviceNames {
  import opened Bytes
  import opened IdMap

  const PREFIX := "\\sd"

  predicate IsAlpha(c: char) {
    'a' <= c <= 'z' || 'A' <= c <= 'Z'
  }

  predicate IsDigit(c: char) {
    '0' <= c <= '9'
  }

  // ----- printing -----

  /** "%d" of a non-negative number. */
  function Decimal(n: nat): (s: string)
    ensures s != [] && forall i :: 0 <= i < |s| ==> IsDigit(s[i])
  {
    (if n < 10 then [] else Decimal(n / 10)) + ['0' + (n % 10) as char]
  }

  /** "sd", the letter of the disk, the partition number. */
  function PrintName(disk: nat, part: nat): string
    requires disk < 31
  {
    "sd" + ['a' + disk as char] + Decimal(part)
  }

  // ----- the values the parser accumulates -----

  /** Bijective base 26, upper-case letters included as the code computes them. */
  function AlphaValue(s: string): int {
    if s == [] then 0 else AlphaValue(s[..|s| - 1]) * 26 + (s[|s| - 1] as int - 'a' as int + 1)
  }

  function DecimalValue(s: string): int {
    if s == [] then 0 else DecimalValue(s[..|s| - 1]) * 10 + (s[|s| - 1] as int - '0' as int)
  }

  lemma EmptyValues()
    ensures AlphaValue([]) == 0 && DecimalValue([]) == 0
  {
  }

  lemma ValueAppend(s: string, c: char)
    ensures AlphaValue(s + [c]) == AlphaValue(s) * 26 + (c as int - 'a' as int + 1)
    ensures DecimalValue(s + [c]) == DecimalValue(s) * 10 + (c as int - '0' as int)
  {
  }

  /** Printing a number and reading it back. */
  lemma {:induction false} DecimalRoundTrip(n: nat)
    ensures DecimalValue(Decimal(n)) == n
  {
    var d := Decimal(n);
    if n >= 10 {
      DecimalRoundTrip(n / 10);
      assert d[..|d| - 1] == Decimal(n / 10);
    } else {
      assert d[..|d| - 1] == [];
    }
  }

  predicate LowerCase(s: string) {
    forall i :: 0 <= i < |s| ==> 'a' <= s[i] <= 'z'
  }

  lemma {:induction false} AlphaValuePositive(s: string)
    requires LowerCase(s)
    ensures AlphaValue(s) >= |s|
  {
    if s != [] {
      AlphaValuePositive(s[..|s| - 1]);
    }
  }

  /** No two strings of lower-case letters have the same value. */
  lemma {:induction false} AlphaValueInjective(s: string, t: string)
    requires LowerCase(s) && LowerCase(t) && AlphaValue(s) == AlphaValue(t)
    ensures s == t
    decreases |s|
  {
    AlphaValuePositive(s);
    AlphaValuePositive(t);
    if s != [] && t != [] {
      var a, b := s[|s| - 1] as int - 'a' as int + 1, t[|t| - 1] as int - 'a' as int + 1;
      var x, y := AlphaValue(s[..|s| - 1]), AlphaValue(t[..|t| - 1]);
      assert x * 26 + a == y * 26 + b && 1 <= a <= 26 && 1 <= b <= 26;
      assert x == y && a == b;
      AlphaValueInjective(s[..|s| - 1], t[..|t| - 1]);
      assert s == s[..|s| - 1] + [s[|s| - 1]] && t == t[..|t| - 1] + [t[|t| - 1]];
    }
  }

  /** Every positive number is the value of a string of lower-case letters. */
  lemma {:induction false} AlphaValueOnto(v: nat) returns (s: string)
    ensures LowerCase(s) && AlphaValue(s) == v
  {
    if v == 0 {
      s := [];
    } else {
      var q, d := (v - 1) / 26, (v - 1) % 26;
      assert v == q * 26 + d + 1;
      var t := AlphaValueOnto(q);
      var c := 'a' + d as char;
      assert c as int == 'a' as int + d;
      s := AppendLetter(t, c);
    }
  }

  lemma AppendLetter(t: string, c: char) returns (s: string)
    requires LowerCase(t) && 'a' <= c <= 'z'
    ensures LowerCase(s) && AlphaValue(s) == AlphaValue(t) * 26 + (c as int - 'a' as int + 1)
  {
    ValueAppend(t, c);
    s := t + [c];
  }

  // ----- parsing -----

  /** Position of the first occurrence of the prefix, as `strstr` finds it. */
  function StrStr(path: string, i: nat): Option<nat>
    requires i <= |path|
    decreases |path| - i
  {
    if |path| - i < |PREFIX| then None
    else if path[i..i + |PREFIX|] == PREFIX then Some(i)
    else StrStr(path, i + 1)
  }

  /** Length of the text before the next backslash. */
  function ComponentLength(s: string): (n: nat)
    ensures n <= |s| && (forall i :: 0 <= i < n ==> s[i] != '\\') && (n < |s| ==> s[n] == '\\')
  {
    if s == [] || s[0] == '\\' then 0 else 1 + ComponentLength(s[1..])
  }

  /** k letters followed by at least one digit and nothing else. */
  predicate NameShape(s: string, k: nat) {
    && 0 < k < |s|
    && (forall i :: 0 <= i < k ==> IsAlpha(s[i]))
    && (forall i :: k <= i < |s| ==> IsDigit(s[i]))
  }

  lemma ShapeIsUnique(s: string, k: nat, k': nat)
    requires NameShape(s, k) && NameShape(s, k')
    ensures k == k'
  {
    AlphaOrDigit(s);
    assert IsDigit(s[k]) && IsDigit(s[k']);
  }

  /** The letter-and-digit loop: succeeds exactly on letters followed by digits, and yields the values
      of the two parts. */
  method ScanName(s: string) returns (ok: bool, alpha: int, digits: int, ghost k: nat)
    ensures ok <==> exists k': nat :: NameShape(s, k')
    ensures ok ==> NameShape(s, k) && alpha == AlphaValue(s[..k]) && digits == DecimalValue(s[k..])
  {
    hide NameShape, IsAlpha, IsDigit, AlphaValue, DecimalValue;
    EmptyValues();
    var wasAlpha, wasDigit := false, false;
    alpha, digits, k, ok := 0, 0, 0, false;
    TooShort(s);
    if |s| < 2 {
      return;
    }
    for i := 0 to |s|
      invariant k <= i && (wasDigit <==> k < i) && (wasAlpha <==> 0 < k)
      invariant (forall j :: 0 <= j < k ==> IsAlpha(s[j])) && (forall j :: k <= j < i ==> IsDigit(s[j]))
      invariant wasDigit ==> wasAlpha
      invariant alpha == AlphaValue(s[..k]) && digits == DecimalValue(s[k..i])
    {
      if IsAlpha(s[i]) {
        if wasDigit {
          assert IsDigit(s[k]);
          NoName(s, i);
          return;
        }
        wasAlpha := true;
        ValueAppend(s[..i], s[i]);
        assert s[..i + 1] == s[..i] + [s[i]] && s[k..i] == [] == s[k + 1..i + 1];
        alpha := alpha * 26 + (s[i] as int - 'a' as int + 1);
        k := k + 1;
      } else if IsDigit(s[i]) {
        if !wasAlpha {
          NoName(s, i);
          return;
        }
        wasDigit := true;
        ValueAppend(s[k..i], s[i]);
        assert s[k..i + 1] == s[k..i] + [s[i]];
        digits := digits * 10 + (s[i] as int - '0' as int);
      } else {
        NoName(s, i);
        return;
      }
    }
    if !wasDigit || !wasAlpha {
      NoName(s, 0);
      return;
    }
    assert s[k..|s|] == s[k..];
    FoundName(s, k);
    ok := true;
  }

  /** What the early exits have found rules out every split into letters and digits: a letter after a
      digit, a digit in front, some other character, or letters only. */
  lemma NoName(s: string, i: nat)
    requires i < |s|
    requires || (exists d :: 0 <= d < i && IsDigit(s[d]) && IsAlpha(s[i]))
             || (i == 0 && IsDigit(s[i]))
             || (!IsAlpha(s[i]) && !IsDigit(s[i]))
             || (forall j :: 0 <= j < |s| ==> IsAlpha(s[j]))
    ensures forall k: nat :: !NameShape(s, k)
  {
    forall k: nat
      ensures !NameShape(s, k)
    {
      AlphaOrDigit(s);
      if 0 < k < |s| && !(exists d :: 0 <= d < i && IsDigit(s[d]) && IsAlpha(s[i])) {
        var odd := if i == 0 && IsDigit(s[i]) then 0 else if !IsAlpha(s[i]) && !IsDigit(s[i]) then i else k;
        assert if odd < k then !IsAlpha(s[odd]) else !IsDigit(s[odd]);
      }
    }
  }

  lemma FoundName(s: string, k: nat)
    requires 0 < k < |s|
    requires (forall j :: 0 <= j < k ==> IsAlpha(s[j])) && (forall j :: k <= j < |s| ==> IsDigit(s[j]))
    ensures NameShape(s, k)
  {
  }

  lemma TooShort(s: string)
    ensures |s| < 2 ==> forall k: nat :: !NameShape(s, k)
  {
  }

  lemma AlphaOrDigit(s: string)
    ensures forall j :: 0 <= j < |s| ==> !(IsAlpha(s[j]) && IsDigit(s[j]))
  {
  }

  /** What follows the prefix, up to the next backslash. */
  function NamePart(path: string): Option<(nat, string)> {
    var p := StrStr(path, 0);
    if p.None? then None
    else
      StrStrFits(path, 0);
      var start := p.value + |PREFIX|;
      Some((start, path[start..][..ComponentLength(path[start..])]))
  }

  lemma {:induction false} StrStrFits(path: string, i: nat)
    requires i <= |path|
    ensures StrStr(path, i).Some? ==> StrStr(path, i).value + |PREFIX| <= |path|
    decreases |path| - i
  {
    if |path| - i >= |PREFIX| && path[i..i + |PREFIX|] != PREFIX {
      StrStrFits(path, i + 1);
    }
  }

  /** `extract_disk_and_part_no`: the disk and partition number named by a path, and where the name
      ends; None on every malformed or out-of-range name. */
  method ExtractDiskAndPartNo(path: string, t: Tables) returns (r: Option<(nat, nat, nat)>)
    ensures r.Some? <==> NamePart(path).Some? && exists k: nat ::
              NameShape(NamePart(path).value.1, k) &&
              Validated(t, AlphaValue(NamePart(path).value.1[..k]) - 1, DecimalValue(NamePart(path).value.1[k..]))
    ensures forall k: nat :: r.Some? && NameShape(NamePart(path).value.1, k) ==>
              && r.value.0 == AlphaValue(NamePart(path).value.1[..k]) - 1
              && r.value.1 == DecimalValue(NamePart(path).value.1[k..])
              && r.value.2 == NamePart(path).value.0 + |NamePart(path).value.1|
  {
    var part := NamePart(path);
    if part.None? {
      return None;
    }
    var (start, name) := part.value;
    var ok, alpha, digits, k := ScanName(name);
    if !ok {
      return None;
    }
    forall k': nat | NameShape(name, k')
      ensures k' == k
    {
      ShapeIsUnique(name, k, k');
    }
    if !Validated(t, alpha - 1, digits) {
      return None;
    }
    return Some((alpha - 1, digits, start + |name|));
  }

  // ----- round trip -----

  lemma {:induction false} ComponentOf(name: string, rest: string)
    requires forall i :: 0 <= i < |name| ==> name[i] != '\\'
    requires rest == [] || rest[0] == '\\'
    ensures ComponentLength(name + rest) == |name|
    decreases |name|
  {
    if name == [] {
      assert name + rest == rest;
    } else {
      assert (name + rest)[1..] == name[1..] + rest;
      ComponentOf(name[1..], rest);
    }
  }

  /** In a path that starts with a printed name the name part is the letter and the number. */
  lemma NamePartOfPrinted(disk: nat, part: nat, rest: string)
    requires disk < 31 && (rest == [] || rest[0] == '\\')
    ensures NamePart("\\" + PrintName(disk, part) + rest) == Some((3, ['a' + disk as char] + Decimal(part)))
  {
    var name := ['a' + disk as char] + Decimal(part);
    var path := "\\" + PrintName(disk, part) + rest;
    assert path == PREFIX + name + rest;
    assert path[0..3] == PREFIX && path[3..] == name + rest;
    ComponentOf(name, rest);
    assert (name + rest)[..|name|] == name;
  }

  /** The name printed for a partition of disks 0 to 25, followed by the end of the path or a backslash,
      has the shape the parser wants, and its two parts have the values that were printed. */
  lemma PrintedNameParses(disk: nat, part: nat, rest: string)
    requires disk < 26 && (rest == [] || rest[0] == '\\')
    ensures var path := "\\" + PrintName(disk, part) + rest;
            && NamePart(path).Some? && NamePart(path).value.0 == 3
            && var name := NamePart(path).value.1;
               NameShape(name, 1) && AlphaValue(name[..1]) - 1 == disk && DecimalValue(name[1..]) == part
  {
    hide *;
    NamePartOfPrinted(disk, part, rest);
    LetterAndNumber('a' + disk as char, Decimal(part));
    DecimalRoundTrip(part);
  }

  /** Shape and values of one letter followed by a number. */
  lemma LetterAndNumber(c: char, digits: string)
    requires 'a' <= c <= 'z' && digits != [] && forall i :: 0 <= i < |digits| ==> IsDigit(digits[i])
    ensures NameShape([c] + digits, 1)
    ensures AlphaValue(([c] + digits)[..1]) == c as int - 'a' as int + 1
    ensures DecimalValue(([c] + digits)[1..]) == DecimalValue(digits)
  {
  }

  /** Printed names of disks 26 to 30 use characters that are no letters, so they do not parse. */
  lemma LaterDisksDoNotParse(disk: nat, part: nat, rest: string)
    requires 26 <= disk < 31 && (rest == [] || rest[0] == '\\')
    ensures var path := "\\" + PrintName(disk, part) + rest;
            NamePart(path).Some? && forall k: nat :: !NameShape(NamePart(path).value.1, k)
  {
  }

  /** Letters of both cases are accepted, and an upper-case one counts 32 less than its lower-case form, so that a
      disk has further names: "bA" stands for disk 20 like "u". */
  lemma UpperCaseAlias()
    ensures NameShape("bA1", 2) && AlphaValue("bA1"[..2]) - 1 == 20 && DecimalValue("bA1"[2..]) == 1
    ensures NameShape("u1", 1) && AlphaValue("u1"[..1]) - 1 == 20 && DecimalValue("u1"[1..]) == 1
  {
    hide AlphaValue, DecimalValue;
    assert "bA1"[..2] == "bA" && "bA1"[2..] == "1" && "u1"[..1] == "u" && "u1"[1..] == "1";
    assert "bA" == "b" + ['A'] && "b" == "" + ['b'] && "u" == "" + ['u'] && "1" == "" + ['1'];
    EmptyValues();
    ValueAppend("b", 'A');
    ValueAppend("", 'b');
    ValueAppend("", 'u');
    ValueAppend("", '1');
  }

  /** From a listed partition to its name, through the parser and the id map, and back to its index. */
  method OpenByName(t: Tables, m: array<nat>, disk: nat, j: nat, rest: string) returns (d: nat, p: nat, index: nat)
    requires ValidTables(t) && IsIdMap(t, m[..]) && disk < |t| && disk < 26 && j < |t[disk]|
    requires rest == [] || rest[0] == '\\'
    ensures d == disk && p == t[disk][j] && index == j
  {
    hide PrintName, NamePart, IsIdMap, ValidTables;
    var path := "\\" + PrintName(disk, t[disk][j]) + rest;
    PrintedNameParses(disk, t[disk][j], rest);
    LookupInverts(t, m[..], disk, j);
    var r := ExtractDiskAndPartNo(path, t);
    d, p := r.value.0, r.value.1;
    LookupInside(t, m[..], d, p);
    index := m[m[d] + p - 1];
  }
}
