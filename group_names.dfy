/** Group names, references to a group or to one node of it (`name` or
    `name[idx]`), reference lists and region names. */
module GroupNames {
  import opened Wrappers
  import opened YamlValue
  import opened PyText
  import opened PyInt

  /** ASCII letters, digits, `_` and `-`: the characters a group name may hold. */
  predicate AllowedGroupNameChar(c: char) {
    'a' <= c <= 'z' || 'A' <= c <= 'Z' || '0' <= c <= '9' || c == '_' || c == '-'
  }

  predicate ValidGroupName(n: string) {
    forall i :: 0 <= i < |n| ==> AllowedGroupNameChar(n[i])
  }

  /** The character-by-character scan of `validate_group_name`. */
  function NoInvalidChar(n: string): (ok: bool)
    ensures ok <==> ValidGroupName(n)
  {
    n == [] || (AllowedGroupNameChar(n[0]) && NoInvalidChar(n[1..]))
  }

  /** `validate_group_name`: accepts exactly the names made of allowed
      characters (the empty name among them) and hands the name back unchanged. */
  function ValidateGroupName(n: string): (r: Result<string>)
    ensures r.Ok? <==> ValidGroupName(n)
    ensures r.Ok? ==> r.value == n
  {
    if NoInvalidChar(n) then Ok(n) else Err
  }

  lemma ValidGroupNameHasNoBracket(n: string)
    requires ValidGroupName(n)
    ensures '[' !in n && ']' !in n
  {
  }

  /** A reference to a whole group (`idx == None`) or to one node of it. */
  datatype Ref = Ref(group: string, idx: Option<int>)

  /** `as_group_or_node_id`: `name` or `name[idx]`. Everything after the one `[`,
      with every `]` removed, must read as an integer. */
  function AsGroupOrNodeId(s: string): (r: Result<Ref>)
    ensures r.Ok? ==> ValidGroupName(r.value.group)
    ensures '[' !in s ==> r == if ValidGroupName(s) then Ok(Ref(s, None)) else Err
  {
    if '[' !in s then
      var name :- ValidateGroupName(s);
      Ok(Ref(name, None))
    else
      var parts := Split(s, '[');
      if |parts| > 2 then Err
      else
        var name :- ValidateGroupName(parts[0]);
        match ParseInt(RemoveChar(parts[1], ']'))
        case None => Err
        case Some(idx) => Ok(Ref(name, Some(idx)))
  }

  /** The written form of a reference, the inverse of `AsGroupOrNodeId`. */
  function FormatRef(r: Ref): string {
    match r.idx
    case None => r.group
    case Some(k) => r.group + "[" + IntToStr(k) + "]"
  }

  /** What `AsGroupOrNodeId` accepts and what it returns, stated on the
      positions of the string: a name alone, or a name, one `[`, and a tail that
      is an integer once its `]`s are dropped. */
  lemma AsGroupOrNodeIdExactly(s: string)
    ensures '[' in s ==>
      var i := IndexOf(s, '[');
      var tail := s[i + 1..];
      && (AsGroupOrNodeId(s).Ok? <==>
            '[' !in tail && ValidGroupName(s[..i]) && ParseInt(RemoveChar(tail, ']')).Some?)
      && (AsGroupOrNodeId(s).Ok? ==>
            AsGroupOrNodeId(s).value == Ref(s[..i], ParseInt(RemoveChar(tail, ']'))))
  {
    if '[' in s {
      var i := IndexOf(s, '[');
      var tail := s[i + 1..];
      assert s == s[..i] + ['['] + tail;
      SplitAtFirst(s[..i], tail, '[');
      if '[' !in tail {
        SplitNoSeparator(tail, '[');
      }
    }
  }

  /** Every reference to a validly named group survives writing it out and
      reading it back: `g` gives `(g, None)` and `g[k]` gives `(g, k)`. */
  lemma RefRoundTrip(r: Ref)
    requires ValidGroupName(r.group)
    ensures AsGroupOrNodeId(FormatRef(r)) == Ok(r)
  {
    ValidGroupNameHasNoBracket(r.group);
    if r.idx.Some? {
      var k := r.idx.value;
      var t := IntToStr(k);
      IntToStrHasNoBrackets(k);
      var s := FormatRef(r);
      assert s == r.group + ['['] + (t + "]");
      SplitAtFirst(r.group, t + "]", '[');
      SplitNoSeparator(t + "]", '[');
      assert Split(s, '[') == [r.group, t + "]"];
      RemoveCharConcat(t, "]", ']');
      assert RemoveChar(t + "]", ']') == t;
      ParseIntRoundTrip(k);
    }
  }

  /** A name, one `[` and a bracket-free tail: the tail without its `]`s is the index. */
  lemma IndexedRef(g: string, tail: string)
    requires '[' !in g && '[' !in tail
    ensures AsGroupOrNodeId(g + "[" + tail) ==
      if !ValidGroupName(g) then Err
      else match ParseInt(RemoveChar(tail, ']'))
        case None => Err
        case Some(k) => Ok(Ref(g, Some(k)))
  {
    assert g + "[" + tail == g + ['['] + tail;
    SplitAtFirst(g, tail, '[');
    SplitNoSeparator(tail, '[');
  }

  lemma TwelveAfterBrackets()
    ensures RemoveChar("1]2", ']') == "12"
    ensures ParseInt("12") == Some(12)
  {
    assert "1]2"[1..] == "]2";
    assert "]2"[1..] == "2";
    assert IntToStr(12) == "12" by {
      assert 12 / 10 == 1 && 12 % 10 == 2;
      assert NatToStr(1) == "1";
    }
    ParseIntRoundTrip(12);
  }

  /** Digits after the closing bracket join the index. */
  lemma TrailingDigitsJoinIndex()
    ensures AsGroupOrNodeId("g[1]2") == Ok(Ref("g", Some(12)))
  {
    IndexedRef("g", "1]2");
    assert "g" + "[" + "1]2" == "g[1]2";
    TwelveAfterBrackets();
    assert ValidGroupName("g");
  }

  /** Stray closing brackets are ignored. */
  lemma StrayBracketsIgnored()
    ensures AsGroupOrNodeId("g[7]]") == Ok(Ref("g", Some(7)))
  {
    IndexedRef("g", "7]]");
    assert "g" + "[" + "7]]" == "g[7]]";
    assert RemoveChar("7]]", ']') == "7" by {
      assert "7]]"[1..] == "]]";
      assert "]]"[1..] == "]";
      assert RemoveChar("]]", ']') == "";
    }
    assert IntToStr(7) == "7";
    ParseIntRoundTrip(7);
    assert ValidGroupName("g");
  }

  /** A second `[` is refused even when both indices are integers. */
  lemma TwoIndicesRefused()
    ensures AsGroupOrNodeId("g[1][2]").Err?
  {
    assert Count("g[1][2]", '[') == 2;
  }

  /** `as_string_list`: a list is taken as it is (its items are not checked
      here), a single string stands for the one-item list holding it. */
  function AsStringList(v: Value): (r: Result<seq<Value>>)
    ensures r.Ok? <==> v.List? || v.Str?
    ensures r.Ok? && v.Str? ==> r.value == [v]
    ensures r.Ok? && v.List? ==> r.value == v.items
  {
    match v
    case List(items) => Ok(items)
    case Str(_) => Ok([v])
    case _ => Err
  }

  /** The regions the deployment tooling knows about. */
  const SupportedRegions: set<string> := {
    "us-east-1", "us-east-2", "us-west-1", "ap-northeast-2",
    "ap-southeast-2", "eu-central-1", "eu-west-1"
  }

  /** `as_region_name`: the `_` spelling of a region becomes its `-` spelling. */
  function AsRegionName(s: string): (r: string)
    ensures |r| == |s| && '_' !in r
    ensures '_' !in s ==> r == s
  {
    ReplaceChar(s, '_', '-')
  }

  /** A region written with underscores (`us_east_1`) is read back as the
      region it names. */
  lemma RegionNameRoundTrip(region: string)
    requires '_' !in region
    ensures AsRegionName(ReplaceChar(region, '-', '_')) == region
  {
  }
}
