/**
 The backend's hand-written parser for the HTTP `Link` header, which Shopify
 uses for cursor pagination. It implements a simplified subset of section 3 of
 RFC 8288 (Web Linking): the header is cut at every `,` into link values, each
 value at every `;` into a target and its parameters; the target loses any
 `<`, `>` and spaces at its ends, and only a bare `rel=value` parameter is
 recognised (no quoted commas, no whitespace around `=`, no multi-valued
 `rel` as in section 3.3 of RFC 8288).

 The parser's result maps each relation type to `{'href': target}`; here the
 inner one-key dictionary is represented by the target string itself.
 */
module LinkHeader {
  import opened Optional
  import opened PyStrings

  /** One accepted link value: its target and its relation type. */
  datatype Link = Link(href: string, rel: string)

  /** Characters stripped from both ends of a link target (`strip('<> ')`). */
  const TargetTrim: set<char> := {'<', '>', ' '}

  /** Characters stripped from both ends of a `rel` value (`strip('"')`). */
  const QuoteTrim: set<char> := {'"'}

  /** A parameter segment that, once stripped of whitespace, reads `rel=value`
      with exactly one `=`. */
  predicate IsRelParam(seg: string)
  {
    var kv := Split(Strip(seg, Whitespace), '=');
    |kv| == 2 && kv[0] == "rel"
  }

  /** The value of a `rel=value` segment, without surrounding double quotes. */
  function RelValue(seg: string): string
    requires IsRelParam(seg)
  {
    Strip(Split(Strip(seg, Whitespace), '=')[1], QuoteTrim)
  }

  /** The value of the FIRST `rel` parameter among `params`; later ones are ignored. */
  function FindRel(params: seq<string>): Option<string>
  {
    if |params| == 0 then None
    else if IsRelParam(params[0]) then Some(RelValue(params[0]))
    else FindRel(params[1..])
  }

  /** Segment `i` is the first `rel` parameter among `params`. */
  predicate FirstRel(params: seq<string>, i: int)
  {
    0 <= i < |params| && IsRelParam(params[i]) && forall j :: 0 <= j < i ==> !IsRelParam(params[j])
  }

  /** `FindRel` finds a value exactly when some segment is a `rel` parameter,
      and then it is the value of the first such segment. */
  lemma {:induction false} FindRelMeaning(params: seq<string>)
    ensures FindRel(params).None? <==> forall i :: 0 <= i < |params| ==> !IsRelParam(params[i])
    ensures FindRel(params).Some? ==>
      exists i :: FirstRel(params, i) && FindRel(params).value == RelValue(params[i])
    decreases |params|
  {
    if |params| > 0 && !IsRelParam(params[0]) {
      var rest := params[1..];
      FindRelMeaning(rest);
      assert forall i :: 1 <= i < |params| ==> params[i] == rest[i - 1];
      if FindRel(rest).Some? {
        var i :| FirstRel(rest, i) && FindRel(rest).value == RelValue(rest[i]);
        assert FirstRel(params, i + 1);
      }
    } else if |params| > 0 {
      assert FirstRel(params, 0);
    }
  }

  /** One comma-separated part of the header: its target and first `rel` value,
      when it has a parameter segment and that value is not empty. */
  function ParsePart(part: string): Option<Link>
  {
    var segs := Split(part, ';');
    if |segs| < 2 then None
    else
      match FindRel(segs[1..])
      case None => None
      case Some(rel) =>
        if rel == "" then None else Some(Link(Strip(segs[0], TargetTrim), rel))
  }

  /** An accepted part has at least two `;`-segments; its target is the first
      segment trimmed of `<`, `>` and spaces, its relation type the non-empty
      value of the first `rel` parameter among the other segments. */
  lemma ParsePartAccepted(part: string)
    requires ParsePart(part).Some?
    ensures var segs := Split(part, ';');
      && |segs| >= 2
      && ParsePart(part).value.href == Strip(segs[0], TargetTrim)
      && ParsePart(part).value.rel != ""
      && exists i :: FirstRel(segs[1..], i) && ParsePart(part).value.rel == RelValue(segs[1..][i])
  {
    FindRelMeaning(Split(part, ';')[1..]);
  }

  /** A part is rejected when it has fewer than two `;`-segments, or when the
      first `rel` parameter after the first segment is missing or has an empty
      value; otherwise it is accepted. */
  lemma ParsePartRejected(part: string)
    ensures var segs := Split(part, ';');
      ParsePart(part).None? <==>
        || |segs| < 2
        || forall i :: FirstRel(segs[1..], i) ==> RelValue(segs[1..][i]) == ""
  {
    var segs := Split(part, ';');
    if |segs| >= 2 {
      var params := segs[1..];
      FindRelMeaning(params);
      if FindRel(params).Some? {
        var k :| FirstRel(params, k) && FindRel(params).value == RelValue(params[k]);
        forall i | FirstRel(params, i) ensures i == k {
          FirstRelUnique(params, i, k);
        }
      }
    }
  }

  /** Two segments that are each the first `rel` parameter are the same segment. */
  lemma FirstRelUnique(params: seq<string>, a: int, b: int)
    requires FirstRel(params, a) && FirstRel(params, b)
    ensures a == b
  {
  }

  /** `part` is accepted and declares relation type `rel`. */
  predicate Declares(part: string, rel: string)
  {
    var p := ParsePart(part);
    p.Some? && p.value.rel == rel
  }

  /** The link map built from the parsed parts in order: each accepted part
      writes its relation type, so a repeated relation type ends up with the
      target of its last occurrence. */
  function Collect(found: seq<Option<Link>>): map<string, string>
    decreases |found|
  {
    if |found| == 0 then map[]
    else
      var m := Collect(found[..|found| - 1]);
      match found[|found| - 1]
      case None => m
      case Some(l) => m[l.rel := l.href]
  }

  /** Every key comes from an accepted part, with that part's target. */
  lemma {:induction false} CollectKeysFromParts(found: seq<Option<Link>>, rel: string)
    requires rel in Collect(found)
    ensures exists i :: 0 <= i < |found| && found[i] == Some(Link(Collect(found)[rel], rel))
    decreases |found|
  {
    var init := found[..|found| - 1];
    var last := found[|found| - 1];
    if last.Some? && last.value.rel == rel {
      assert found[|found| - 1] == Some(Link(Collect(found)[rel], rel));
    } else {
      CollectKeysFromParts(init, rel);
      var i :| 0 <= i < |init| && init[i] == Some(Link(Collect(init)[rel], rel));
      assert found[i] == init[i];
    }
  }

  /** The target of an accepted part survives unless a later part declares the
      same relation type. */
  lemma {:induction false} CollectLastWins(found: seq<Option<Link>>, i: nat)
    requires i < |found| && found[i].Some?
    requires forall j :: i < j < |found| ==> !(found[j].Some? && found[j].value.rel == found[i].value.rel)
    ensures found[i].value.rel in Collect(found)
    ensures Collect(found)[found[i].value.rel] == found[i].value.href
    decreases |found|
  {
    if i < |found| - 1 {
      var init := found[..|found| - 1];
      assert init[i] == found[i];
      forall j | i < j < |init| ensures !(init[j].Some? && init[j].value.rel == init[i].value.rel) {
        assert init[j] == found[j];
      }
      CollectLastWins(init, i);
    }
  }

  /** Every accepted part's relation type is a key. */
  lemma CollectHasPart(found: seq<Option<Link>>, i: nat)
    requires i < |found| && found[i].Some?
    ensures found[i].value.rel in Collect(found)
  {
    var rel := found[i].value.rel;
    var k := LastIndex(found, rel, i);
    CollectLastWins(found, k);
  }

  /** The last index at or after `i` whose part declares `rel`. */
  function LastIndex(found: seq<Option<Link>>, rel: string, i: nat): (k: nat)
    requires i < |found| && found[i].Some? && found[i].value.rel == rel
    ensures i <= k < |found| && found[k].Some? && found[k].value.rel == rel
    ensures forall j :: k < j < |found| ==> !(found[j].Some? && found[j].value.rel == rel)
    decreases |found| - i
  {
    if exists j :: i < j < |found| && found[j].Some? && found[j].value.rel == rel then
      var j :| i < j < |found| && found[j].Some? && found[j].value.rel == rel;
      LastIndex(found, rel, j)
    else i
  }

  /** Every part of the header, parsed. */
  function ParseParts(header: string): (found: seq<Option<Link>>)
    ensures |found| == |Split(header, ',')|
    ensures forall i :: 0 <= i < |found| ==> found[i] == ParsePart(Split(header, ',')[i])
  {
    var parts := Split(header, ',');
    seq(|parts|, i requires 0 <= i < |parts| => ParsePart(parts[i]))
  }

  /** `parse_link_header(header)`. */
  function Parse(header: string): (links: map<string, string>)
  {
    Collect(ParseParts(header))
  }

  /** Every key of the result is a non-empty relation type declared by some part. */
  lemma ParseKeyDeclared(header: string, rel: string)
    requires rel in Parse(header)
    ensures exists i :: 0 <= i < |Split(header, ',')| && Declares(Split(header, ',')[i], rel)
    ensures rel != ""
  {
    var parts := Split(header, ',');
    var found := ParseParts(header);
    CollectKeysFromParts(found, rel);
    var i :| 0 <= i < |found| && found[i] == Some(Link(Parse(header)[rel], rel));
    assert Declares(parts[i], rel);
  }

  /** Every relation type declared by an accepted part is a key of the result. */
  lemma ParseDeclaredKey(header: string, rel: string, i: nat)
    requires i < |Split(header, ',')| && Declares(Split(header, ',')[i], rel)
    ensures rel in Parse(header)
  {
    CollectHasPart(ParseParts(header), i);
  }

  /** Each key maps to the target of the LAST part declaring it. */
  lemma ParseLastWins(header: string, i: nat)
    requires i < |Split(header, ',')|
    requires ParsePart(Split(header, ',')[i]).Some?
    requires forall j :: i < j < |Split(header, ',')| ==> !Declares(Split(header, ',')[j], ParsePart(Split(header, ',')[i]).value.rel)
    ensures var l := ParsePart(Split(header, ',')[i]).value;
      l.rel in Parse(header) && Parse(header)[l.rel] == l.href
  {
    var found := ParseParts(header);
    var parts := Split(header, ',');
    forall j | i < j < |found| ensures !(found[j].Some? && found[j].value.rel == found[i].value.rel) {
      assert !Declares(parts[j], found[i].value.rel);
    }
    CollectLastWins(found, i);
  }

  // ---------------------------------------------------------------------------
  // degenerate headers
  // ---------------------------------------------------------------------------

  /** The pieces of a split contain only characters of the original string. */
  lemma {:induction false} SplitKeepsAbsence(s: string, c: char, d: char)
    requires d !in s
    ensures forall i :: 0 <= i < |Split(s, c)| ==> d !in Split(s, c)[i]
    decreases |s|
  {
    if |s| > 0 {
      assert d !in s[1..];
      SplitKeepsAbsence(s[1..], c, d);
    }
  }

  /** A header without any `;` has no parameters, so nothing is accepted;
      in particular the empty header parses to the empty map. */
  lemma ParseWithoutParameters(header: string)
    requires ';' !in header
    ensures Parse(header) == map[]
  {
    var parts := Split(header, ',');
    var found := ParseParts(header);
    SplitKeepsAbsence(header, ',', ';');
    forall i | 0 <= i < |found| ensures found[i].None? {
      SplitNoSeparator(parts[i], ';');
    }
    CollectNothing(found);
  }

  /** Parts that are all rejected contribute nothing. */
  lemma {:induction false} CollectNothing(found: seq<Option<Link>>)
    requires forall i :: 0 <= i < |found| ==> found[i].None?
    ensures Collect(found) == map[]
    decreases |found|
  {
    if |found| > 0 {
      CollectNothing(found[..|found| - 1]);
    }
  }

  lemma ParseEmptyHeader()
    ensures Parse("") == map[]
  {
    ParseWithoutParameters("");
  }

  // ---------------------------------------------------------------------------
  // rendering and the round trip
  // ---------------------------------------------------------------------------

  /** The map a sequence of links denotes when later entries override earlier ones. */
  function ToMap(links: seq<Link>): map<string, string>
  {
    if |links| == 0 then map[]
    else ToMap(links[..|links| - 1])[links[|links| - 1].rel := links[|links| - 1].href]
  }

  /** One link value as Shopify writes it: `<href>; rel="rel"`. */
  function Entry(l: Link): string
  {
    "<" + l.href + ">; rel=\"" + l.rel + "\""
  }

  /** The link values joined by `, `, as in a `Link` header. */
  function Render(links: seq<Link>): string
  {
    Join(seq(|links|, i requires 0 <= i < |links| => Entry(links[i])), ", ")
  }

  /** A link the simplified parser can read back: no separators in it, no
      trimmed characters at the target's ends, a non-empty relation type
      without `=` and without quotes at its ends. */
  predicate Renderable(l: Link)
  {
    && ',' !in l.href && ';' !in l.href
    && (|l.href| > 0 ==> l.href[0] !in TargetTrim && l.href[|l.href| - 1] !in TargetTrim)
    && l.rel != ""
    && ',' !in l.rel && ';' !in l.rel && '=' !in l.rel
    && l.rel[0] != '"' && l.rel[|l.rel| - 1] != '"'
  }

  /** The `rel="…"` parameter of a rendered entry reads back as its relation type. */
  lemma RelParamReads(l: Link)
    requires Renderable(l)
    ensures IsRelParam(" rel=\"" + l.rel + "\"")
    ensures RelValue(" rel=\"" + l.rel + "\"") == l.rel
  {
    var quoted := "\"" + l.rel + "\"";
    var core := "rel=" + quoted;
    StripParam(core);
    assert " rel=\"" + l.rel + "\"" == " " + core;
    SplitRelValue(quoted);
    StripFrame("\"", l.rel, "\"", QuoteTrim);
  }

  lemma StripParam(core: string)
    requires |core| > 0 && core[0] == 'r' && core[|core| - 1] == '"'
    ensures Strip(" " + core, Whitespace) == core
  {
    assert 'r' !in Whitespace && '"' !in Whitespace;
    assert " " + core == " " + core + "";
    StripFrame(" ", core, "", Whitespace);
  }

  lemma SplitRelValue(quoted: string)
    requires '=' !in quoted
    ensures Split("rel=" + quoted, '=') == ["rel", quoted]
  {
    assert "rel=" + quoted == "rel" + ['='] + quoted;
    SplitConcat("rel", quoted, '=');
    SplitNoSeparator("rel", '=');
    SplitNoSeparator(quoted, '=');
  }

  /** An entry, with or without a leading space, parses back to its link. */
  lemma {:induction false} ParseEntry(pre: string, l: Link)
    requires pre == "" || pre == " "
    requires Renderable(l)
    ensures ParsePart(pre + Entry(l)) == Some(l)
  {
    var target := pre + "<" + l.href + ">";
    var param := " rel=\"" + l.rel + "\"";
    EntrySegments(pre, l);
    assert target == (pre + "<") + l.href + ">";
    StripFrame(pre + "<", l.href, ">", TargetTrim);
    RelParamReads(l);
    assert FindRel([param]) == Some(l.rel);
    assert Split(pre + Entry(l), ';')[1..] == [param];
  }

  /** A rendered entry has exactly two `;`-segments: its target and its `rel` parameter. */
  lemma EntrySegments(pre: string, l: Link)
    requires pre == "" || pre == " "
    requires Renderable(l)
    ensures Split(pre + Entry(l), ';') == [pre + "<" + l.href + ">", " rel=\"" + l.rel + "\""]
  {
    var target := pre + "<" + l.href + ">";
    var param := " rel=\"" + l.rel + "\"";
    assert pre + Entry(l) == target + [';'] + param;
    assert ';' !in target;
    assert ';' !in param;
    SplitConcat(target, param, ';');
    SplitNoSeparator(target, ';');
    SplitNoSeparator(param, ';');
  }

  /** Collecting parts that all parsed gives the map their links denote. */
  lemma {:induction false} CollectLinks(found: seq<Option<Link>>, links: seq<Link>)
    requires |found| == |links|
    requires forall i :: 0 <= i < |found| ==> found[i] == Some(links[i])
    ensures Collect(found) == ToMap(links)
    decreases |found|
  {
    if |found| > 0 {
      CollectLinks(found[..|found| - 1], links[..|links| - 1]);
    }
  }

  /** Round trip: rendering links and parsing the header gives back the map they
      denote (the last target for each relation type). */
  lemma ParseRender(links: seq<Link>)
    requires forall i :: 0 <= i < |links| ==> Renderable(links[i])
    ensures Parse(Render(links)) == ToMap(links)
  {
    if |links| == 0 {
      assert Render(links) == "";
      ParseEmptyHeader();
    } else {
      RenderedParts(links);
      CollectLinks(ParseParts(Render(links)), links);
    }
  }

  /** Each comma-separated part of a rendered header parses to its link. */
  lemma RenderedParts(links: seq<Link>)
    requires |links| > 0
    requires forall i :: 0 <= i < |links| ==> Renderable(links[i])
    ensures |ParseParts(Render(links))| == |links|
    ensures forall i :: 0 <= i < |links| ==> ParseParts(Render(links))[i] == Some(links[i])
  {
    RenderSplit(links);
    var parts := Split(Render(links), ',');
    forall i | 0 <= i < |links| ensures ParsePart(parts[i]) == Some(links[i]) {
      if i == 0 {
        ParseEntry("", links[i]);
        assert "" + Entry(links[i]) == Entry(links[i]);
      } else {
        ParseEntry(" ", links[i]);
      }
    }
  }

  /** Cutting a rendered header at its commas gives the entries back, all but
      the first with the space that followed the comma. */
  lemma RenderSplit(links: seq<Link>)
    requires |links| > 0
    requires forall i :: 0 <= i < |links| ==> Renderable(links[i])
    ensures |Split(Render(links), ',')| == |links|
    ensures Split(Render(links), ',')[0] == Entry(links[0])
    ensures forall i :: 0 < i < |links| ==> Split(Render(links), ',')[i] == " " + Entry(links[i])
  {
    var entries := seq(|links|, i requires 0 <= i < |links| => Entry(links[i]));
    forall i | 0 <= i < |entries| ensures ',' !in entries[i] {
      EntryHasNoComma(links[i]);
    }
    assert [','] + " " == ", ";
    SplitJoinWith(entries, ',', " ");
  }

  lemma EntryHasNoComma(l: Link)
    requires Renderable(l)
    ensures ',' !in Entry(l)
  {
  }

  /** With distinct relation types, the parsed header maps every relation type
      to its own target and has no other keys. */
  lemma ParseRenderDistinct(links: seq<Link>)
    requires forall i :: 0 <= i < |links| ==> Renderable(links[i])
    requires forall i, j :: 0 <= i < j < |links| ==> links[i].rel != links[j].rel
    ensures forall i :: 0 <= i < |links| ==> links[i].rel in Parse(Render(links)) && Parse(Render(links))[links[i].rel] == links[i].href
    ensures forall k :: k in Parse(Render(links)) <==> exists i :: 0 <= i < |links| && links[i].rel == k
  {
    ParseRender(links);
    ToMapDistinct(links);
    forall k ensures k in ToMap(links) <==> exists i :: 0 <= i < |links| && links[i].rel == k {
      ToMapKeys(links, k);
    }
  }

  lemma {:induction false} ToMapKeys(links: seq<Link>, k: string)
    ensures k in ToMap(links) <==> exists i :: 0 <= i < |links| && links[i].rel == k
    decreases |links|
  {
    if |links| > 0 {
      var init := links[..|links| - 1];
      ToMapKeys(init, k);
      if exists i :: 0 <= i < |init| && init[i].rel == k {
        var i :| 0 <= i < |init| && init[i].rel == k;
        assert links[i].rel == k;
      }
      if exists i :: 0 <= i < |links| && links[i].rel == k {
        var i :| 0 <= i < |links| && links[i].rel == k;
        if i < |init| {
          assert init[i].rel == k;
        }
      }
    }
  }

  lemma {:induction false} ToMapDistinct(links: seq<Link>)
    requires forall i, j :: 0 <= i < j < |links| ==> links[i].rel != links[j].rel
    ensures forall i :: 0 <= i < |links| ==> links[i].rel in ToMap(links) && ToMap(links)[links[i].rel] == links[i].href
    decreases |links|
  {
    if |links| > 0 {
      var init := links[..|links| - 1];
      ToMapDistinct(init);
      forall i | 0 <= i < |links|
        ensures links[i].rel in ToMap(links) && ToMap(links)[links[i].rel] == links[i].href
      {
        if i < |init| {
          assert init[i] == links[i];
        }
      }
    }
  }
}
