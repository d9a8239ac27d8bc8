/** Loading the watch list: each line `Sub Name,Field Name` names one field of one
    subpackage, and becomes the canonical key `Sub_Name_Field_Name` of the report. */
module WatchList {
  import opened Common

  /** The characters Python's `str.strip()` removes: the ASCII whitespace and
      separator controls and the Unicode spaces and line separators. */
  predicate IsSpace(c: char)
    ensures IsSpace(c) ==> c != ','
  {
    || c == ' '
    || ('\t' <= c <= '\r')
    || ('\U{1C}' <= c <= '\U{1F}')
    || c == '\U{85}' || c == '\U{A0}' || c == '\U{1680}'
    || ('\U{2000}' <= c <= '\U{200A}')
    || c == '\U{2028}' || c == '\U{2029}' || c == '\U{202F}' || c == '\U{205F}' || c == '\U{3000}'
  }

  /** `s` without its leading whitespace. */
  function TrimLeft(s: string): (r: string)
    ensures |r| <= |s| && r == s[|s| - |r|..]
    ensures forall i :: 0 <= i < |s| - |r| ==> IsSpace(s[i])
    ensures r == [] || !IsSpace(r[0])
  {
    if s == [] || !IsSpace(s[0]) then s else TrimLeft(s[1..])
  }

  /** `s` without its trailing whitespace. */
  function TrimRight(s: string): (r: string)
    ensures |r| <= |s| && r == s[..|r|]
    ensures forall i :: |r| <= i < |s| ==> IsSpace(s[i])
    ensures r == [] || !IsSpace(r[|r| - 1])
  {
    if s == [] || !IsSpace(s[|s| - 1]) then s else TrimRight(s[..|s| - 1])
  }

  /** Python's `str.strip()`: what is left once whitespace is removed at both ends. */
  function Strip(s: string): (r: string)
    ensures |r| <= |s|
    ensures r == [] || (!IsSpace(r[0]) && !IsSpace(r[|r| - 1]))
  {
    TrimRight(TrimLeft(s))
  }

  /** `Strip` removes only whitespace: every other character keeps its multiplicity. */
  lemma StripKeeps(s: string, c: char)
    requires !IsSpace(c)
    ensures multiset(Strip(s))[c] == multiset(s)[c]
  {
    var l := TrimLeft(s);
    var r := TrimRight(l);
    CutCount(s, |s| - |l|, c);
    CutCount(l, |r|, c);
    SpacesOnly(s[..|s| - |l|], c);
    SpacesOnly(l[|r|..], c);
  }

  /** Cutting a sequence in two splits each element's count between the halves. */
  lemma CutCount<T>(s: seq<T>, n: nat, x: T)
    requires n <= |s|
    ensures multiset(s)[x] == multiset(s[..n])[x] + multiset(s[n..])[x]
  {
    assert s == s[..n] + s[n..];
  }

  /** A run of whitespace holds no character that is not whitespace. */
  lemma SpacesOnly(t: string, c: char)
    requires forall i :: 0 <= i < |t| ==> IsSpace(t[i])
    requires !IsSpace(c)
    ensures multiset(t)[c] == 0
  {
    assert c !in t;
  }

  /** Whitespace around a text that neither starts nor ends with whitespace is
      exactly what `Strip` removes. */
  lemma StripExact(lead: string, m: string, trail: string)
    requires forall c :: c in lead ==> IsSpace(c)
    requires forall c :: c in trail ==> IsSpace(c)
    requires m == [] || (!IsSpace(m[0]) && !IsSpace(m[|m| - 1]))
    ensures Strip(lead + m + trail) == m
  {
    if m == [] {
      assert lead + m + trail == (lead + trail) + [];
      assert forall c :: c in lead + trail ==> IsSpace(c);
      TrimLeftExact(lead + trail, []);
    } else {
      assert lead + m + trail == lead + (m + trail);
      TrimLeftExact(lead, m + trail);
      TrimRightExact(m, trail);
    }
  }

  lemma {:induction false} TrimLeftExact(lead: string, rest: string)
    requires forall c :: c in lead ==> IsSpace(c)
    requires rest == [] || !IsSpace(rest[0])
    ensures TrimLeft(lead + rest) == rest
  {
    if lead != [] {
      assert lead[0] in lead;
      assert (lead + rest)[1..] == lead[1..] + rest;
      TrimLeftExact(lead[1..], rest);
    } else {
      assert lead + rest == rest;
    }
  }

  lemma {:induction false} TrimRightExact(rest: string, trail: string)
    requires forall c :: c in trail ==> IsSpace(c)
    requires rest == [] || !IsSpace(rest[|rest| - 1])
    ensures TrimRight(rest + trail) == rest
  {
    if trail != [] {
      assert trail[|trail| - 1] in trail;
      assert (rest + trail)[..|rest + trail| - 1] == rest + trail[..|trail| - 1];
      TrimRightExact(rest, trail[..|trail| - 1]);
    } else {
      assert rest + trail == rest;
    }
  }

  /** The pieces joined back with `sep` between each two: the inverse of `Split`. */
  function Join(parts: seq<string>, sep: char): string
    requires |parts| >= 1
    decreases |parts|
  {
    if |parts| == 1 then parts[0] else parts[0] + [sep] + Join(parts[1..], sep)
  }

  /** Python's `s.split(sep)` with an explicit separator: the text between
      consecutive separators, empty pieces kept. */
  function Split(s: string, sep: char): (parts: seq<string>)
    ensures |parts| >= 1
    ensures sep !in s ==> parts == [s]
    decreases |s|
  {
    if s == [] then [""]
    else
      var rest := Split(s[1..], sep);
      assert s == [s[0]] + s[1..];
      if s[0] == sep then [""] + rest else [[s[0]] + rest[0]] + rest[1..]
  }

  /** `Split` yields one piece more than there are separators. */
  lemma {:induction false} SplitCount(s: string, sep: char)
    ensures |Split(s, sep)| == multiset(s)[sep] + 1
    decreases |s|
  {
    if s != [] {
      SplitCount(s[1..], sep);
      assert s == [s[0]] + s[1..];
    }
  }

  /** No piece of `Split` holds the separator. */
  lemma {:induction false} SplitNoSep(s: string, sep: char)
    ensures forall i :: 0 <= i < |Split(s, sep)| ==> sep !in Split(s, sep)[i]
    decreases |s|
  {
    if s != [] {
      SplitNoSep(s[1..], sep);
    }
  }

  /** Joining the pieces of `Split` gives the text back. */
  lemma {:induction false} SplitThenJoin(s: string, sep: char)
    ensures Join(Split(s, sep), sep) == s
    decreases |s|
  {
    if s != [] {
      var rest := Split(s[1..], sep);
      SplitThenJoin(s[1..], sep);
      var parts := Split(s, sep);
      if s[0] == sep {
        assert parts[1..] == rest;
      } else if |rest| > 1 {
        assert parts[1..] == rest[1..];
      }
    }
  }

  /** Splitting a join of separator-free pieces gives the pieces back. */
  lemma {:induction false} SplitJoin(parts: seq<string>, sep: char)
    requires |parts| >= 1
    requires forall i :: 0 <= i < |parts| ==> sep !in parts[i]
    ensures Split(Join(parts, sep), sep) == parts
    decreases |parts|
  {
    if |parts| == 1 {
      SplitPrefix(parts[0], "", sep);
      assert parts[0] + "" == parts[0];
    } else {
      var rest := Join(parts[1..], sep);
      SplitJoin(parts[1..], sep);
      var t := [sep] + rest;
      SplitSepFirst(rest, sep);
      SplitPrefix(parts[0], t, sep);
      assert Join(parts, sep) == parts[0] + t;
      assert Split(t, sep)[0] == "" && Split(t, sep)[1..] == parts[1..];
      assert parts[0] + "" == parts[0];
      assert parts == [parts[0]] + parts[1..];
    }
  }

  /** A leading separator opens an empty first piece. */
  lemma SplitSepFirst(rest: string, sep: char)
    ensures Split([sep] + rest, sep) == [""] + Split(rest, sep)
  {
    assert ([sep] + rest)[1..] == rest;
  }

  /** A separator-free prefix glues onto the first piece of what follows it. */
  lemma {:induction false} SplitPrefix(a: string, t: string, sep: char)
    requires sep !in a
    ensures Split(a + t, sep) == [a + Split(t, sep)[0]] + Split(t, sep)[1..]
    decreases |a|
  {
    if a != [] {
      assert a[0] in a;
      assert (a + t)[1..] == a[1..] + t;
      SplitPrefix(a[1..], t, sep);
      assert [a[0]] + (a[1..] + Split(t, sep)[0]) == a + Split(t, sep)[0];
    } else {
      assert a + t == t;
      assert a + Split(t, sep)[0] == Split(t, sep)[0];
    }
  }

  /** Every space replaced by an underscore, everything else kept in place. */
  function ReplaceSpaces(s: string): (r: string)
    ensures |r| == |s|
    ensures forall i :: 0 <= i < |s| ==> r[i] == (if s[i] == ' ' then '_' else s[i])
  {
    if s == [] then [] else [if s[0] == ' ' then '_' else s[0]] + ReplaceSpaces(s[1..])
  }

  /** The report key of field `field` of subpackage `sub`: both names with spaces
      turned into underscores, joined by an underscore. The key never holds a space. */
  function CanonicalKey(sub: string, field: string): (key: string)
    ensures |key| == |sub| + 1 + |field|
    ensures ' ' !in key
    ensures ',' !in sub && ',' !in field ==> ',' !in key
  {
    ReplaceSpaces(sub) + "_" + ReplaceSpaces(field)
  }

  /** Renaming can make two different subpackages produce the same key. */
  lemma CanonicalKeyCollides()
    ensures CanonicalKey("A B", "x") == CanonicalKey("A_B", "x")
    ensures CanonicalKey("A", "B_x") == CanonicalKey("A_B", "x")
  {
  }

  /** The key one watch-list line registers: the stripped line must split on commas
      into exactly two pieces (otherwise the tuple unpack raises), the first naming
      the subpackage and the second the field. */
  function ParseWatchLine(line: string): (key: Option<string>)
    ensures key.Some? ==> ' ' !in key.value && ',' !in key.value
  {
    var parts := Split(Strip(line), ',');
    SplitNoSep(Strip(line), ',');
    if |parts| == 2 then Some(CanonicalKey(parts[0], parts[1])) else None
  }

  /** A line is accepted exactly when it holds one comma. */
  lemma WatchLineAccepted(line: string)
    ensures ParseWatchLine(line).Some? <==> multiset(line)[','] == 1
  {
    assert ParseWatchLine(line).Some? <==> |Split(Strip(line), ',')| == 2;
    SplitCount(Strip(line), ',');
    StripKeeps(line, ',');
  }

  /** A line written as `<sub>,<field>` with optional surrounding whitespace (such as
      its line terminator) registers the key of `sub` and `field`. */
  lemma WatchLineRoundTrip(lead: string, sub: string, field: string, trail: string)
    requires forall c :: c in lead ==> IsSpace(c)
    requires forall c :: c in trail ==> IsSpace(c)
    requires ',' !in sub && ',' !in field
    requires sub == [] || !IsSpace(sub[0])
    requires field == [] || !IsSpace(field[|field| - 1])
    ensures ParseWatchLine(lead + sub + "," + field + trail) == Some(CanonicalKey(sub, field))
  {
    var m := sub + "," + field;
    assert m == Join([sub, field], ',') by {
      assert [sub, field][1..] == [field];
    }
    assert lead + sub + "," + field + trail == lead + m + trail;
    StripExact(lead, m, trail);
    SplitJoin([sub, field], ',');
  }

  /** Why `LoadWatchList` stopped: the index of the first line that does not hold
      exactly one comma. */
  datatype LoadError = MalformedLine(index: nat)

  /** Reads the watch list line by line, in file order, into the registry of keys;
      stops at the first line that does not split into two comma-separated pieces. */
  method LoadWatchList(lines: seq<string>) returns (r: Result<seq<string>, LoadError>)
    ensures r.Success? ==> |r.value| == |lines|
    ensures r.Success? ==> forall i :: 0 <= i < |lines| ==> ParseWatchLine(lines[i]) == Some(r.value[i])
    ensures r.Failure? ==> r.error.index < |lines| && ParseWatchLine(lines[r.error.index]).None?
    ensures r.Failure? ==> forall i :: 0 <= i < r.error.index ==> ParseWatchLine(lines[i]).Some?
  {
    var variables: seq<string> := [];
    var i := 0;
    while i < |lines|
      invariant 0 <= i <= |lines| && |variables| == i
      invariant forall k :: 0 <= k < i ==> ParseWatchLine(lines[k]) == Some(variables[k])
    {
      var key := ParseWatchLine(lines[i]);
      if key.None? {
        return Failure(MalformedLine(i));
      }
      ghost var previous := variables;
      variables := variables + [key.value];
      forall k | 0 <= k <= i
        ensures ParseWatchLine(lines[k]) == Some(variables[k])
      {
        if k < i {
          assert variables[k] == previous[k];
        }
      }
      i := i + 1;
    }
    return Success(variables);
  }
}
