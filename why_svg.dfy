/**
 The text helpers of the SVG rendering of `depstat why` (`cmd/why_svg.go`):
 the colour class of a node, the abbreviation of long module paths in node
 labels, and the escaping of text put into the XML. Lengths count
 characters; module paths are ASCII, so they are Go's byte lengths too.
 */
module WhySvg {
  import opened Strings
  import Utils
  import Why

  datatype NodeColor = NodeColor(fill: string, stroke: string, text: string)

  const TargetColor := NodeColor("#FFE0E0", "#D32F2F", "#B71C1C")
  const MainColor := NodeColor("#E8F5E9", "#388E3C", "#1B5E20")
  const SameOrgColor := NodeColor("#E3F2FD", "#1976D2", "#0D47A1")
  const ExternalColor := NodeColor("#FFF3E0", "#F57C00", "#E65100")

  /** The domain of a module path: its text before the first `/`. */
  function Domain(path: string): string
  {
    Split(path, "/")[0]
  }

  /**
   A node is in the same organisation as the first main module when that
   module's path has a non-empty domain followed by a `/`, and the node's
   path starts with that domain and that `/`.
   */
  predicate SameOrg(node: string, mainModules: seq<string>)
  {
    && |mainModules| > 0
    && '/' in mainModules[0]
    && Domain(mainModules[0]) != ""
    && HasPrefix(node, Domain(mainModules[0]) + "/")
  }

  /** The domain is the text before the first `/`, when there is one. */
  lemma DomainBeforeSlash(path: string)
    requires '/' in path
    ensures var i := Index(path, "/");
      0 <= i < |path| && path[i] == '/' && Domain(path) == path[..i] && '/' !in Domain(path)
  {
    var i := Index(path, "/");
    if i == -1 { NotInIfNoIndex(path, '/'); }
    OccursAtChar(path, '/', i);
    NoCharBeforeIndex(path, '/', i);
  }

  /** `classifyNodeColor`: the first of target, main module, same organisation, external. */
  function ClassifyNodeColor(node: string, result: Why.WhyResult): (r: NodeColor)
    ensures r == TargetColor <==> node == result.target
    ensures r == MainColor <==> node != result.target && node in result.mainModules
  {
    if node == result.target then TargetColor
    else if Utils.Contains(result.mainModules, node) then MainColor
    else if |result.mainModules| > 0 && 0 < Index(result.mainModules[0], "/")
         && HasPrefix(node, result.mainModules[0][..Index(result.mainModules[0], "/") + 1]) then SameOrgColor
    else ExternalColor
  }

  /** Each colour is given exactly when no class above it applies and its own does. */
  lemma ClassifyPriority(node: string, result: Why.WhyResult)
    ensures ClassifyNodeColor(node, result) == TargetColor <==> node == result.target
    ensures ClassifyNodeColor(node, result) == MainColor <==>
      node != result.target && node in result.mainModules
    ensures ClassifyNodeColor(node, result) == SameOrgColor <==>
      node != result.target && node !in result.mainModules && SameOrg(node, result.mainModules)
    ensures ClassifyNodeColor(node, result) == ExternalColor <==>
      node != result.target && node !in result.mainModules && !SameOrg(node, result.mainModules)
  {
    var main := result.mainModules;
    if |main| > 0 {
      var i := Index(main[0], "/");
      if '/' in main[0] {
        DomainBeforeSlash(main[0]);
        assert Domain(main[0]) + "/" == main[0][..i + 1];
      } else {
        NoCharNoIndex(main[0], '/');
      }
    }
    assert TargetColor.fill != MainColor.fill && TargetColor.fill != SameOrgColor.fill;
    assert TargetColor.fill != ExternalColor.fill && MainColor.fill != SameOrgColor.fill;
    assert MainColor.fill != ExternalColor.fill && SameOrgColor.fill != ExternalColor.fill;
  }

  // ---------------------------------------------------------------------------
  // abbreviateModule

  const MaxLabel := 38
  const Half := (MaxLabel - 3) / 2

  /** `abbreviateModule(mod, mainModules)`. */
  function AbbreviateModule(mod: string, mainModules: seq<string>): (r: string)
    ensures |r| <= MaxLabel
  {
    if |mod| <= MaxLabel then mod
    else if |mainModules| > 0 && 0 < Index(mainModules[0], "/")
         && HasPrefix(mod, mainModules[0][..Index(mainModules[0], "/") + 1])
         && |mod[Index(mainModules[0], "/") + 1..]| <= MaxLabel - 4 then
      ".../" + mod[Index(mainModules[0], "/") + 1..]
    else mod[..Half] + "..." + mod[|mod| - Half..]
  }

  /** A label that fits is kept as it is. */
  lemma AbbreviateShort(mod: string, mainModules: seq<string>)
    requires |mod| <= MaxLabel
    ensures AbbreviateModule(mod, mainModules) == mod
  {
  }

  /**
   A long path in the organisation of the first main module whose rest
   after the domain fits in 34 characters is shown as `.../` and that rest.
   */
  lemma AbbreviateSameOrg(mod: string, mainModules: seq<string>)
    requires |mod| > MaxLabel && SameOrg(mod, mainModules)
    requires |mod| - |Domain(mainModules[0])| - 1 <= MaxLabel - 4
    ensures AbbreviateModule(mod, mainModules) == ".../" + mod[|Domain(mainModules[0])| + 1..]
  {
    DomainBeforeSlash(mainModules[0]);
    assert Domain(mainModules[0]) + "/" == mainModules[0][..Index(mainModules[0], "/") + 1];
  }

  /**
   Any other long path keeps its first and last 17 characters around
   `...`, 37 characters in all.
   */
  lemma AbbreviateMiddle(mod: string, mainModules: seq<string>)
    requires |mod| > MaxLabel
    requires !SameOrg(mod, mainModules) || |mod| - |Domain(mainModules[0])| - 1 > MaxLabel - 4
    ensures var r := AbbreviateModule(mod, mainModules);
      && r == mod[..17] + "..." + mod[|mod| - 17..]
      && |r| == 37
      && HasPrefix(r, mod[..17])
  {
    if |mainModules| > 0 && '/' in mainModules[0] {
      DomainBeforeSlash(mainModules[0]);
      assert Domain(mainModules[0]) + "/" == mainModules[0][..Index(mainModules[0], "/") + 1];
    } else if |mainModules| > 0 {
      NoCharNoIndex(mainModules[0], '/');
    }
    var r := AbbreviateModule(mod, mainModules);
    assert r[..17] == mod[..17];
  }

  // ---------------------------------------------------------------------------
  // xmlEscape

  /** `xmlEscape`: `&` first, so that the references added later are not escaped again. */
  function XmlEscape(s: string): (r: string)
    ensures '<' !in r && '>' !in r && '"' !in r
    ensures '&' !in s && '<' !in s && '>' !in s && '"' !in s ==> r == s
  {
    var s1 := ReplaceChar(s, '&', "&amp;");
    var s2 := ReplaceChar(s1, '<', "&lt;");
    var s3 := ReplaceChar(s2, '>', "&gt;");
    var r := ReplaceChar(s3, '"', "&quot;");
    EscapeLeavesNone(s, s1, s2, s3);
    r
  }

  lemma EscapeLeavesNone(s: string, s1: string, s2: string, s3: string)
    requires s1 == ReplaceChar(s, '&', "&amp;") && s2 == ReplaceChar(s1, '<', "&lt;")
    requires s3 == ReplaceChar(s2, '>', "&gt;")
    ensures var r := ReplaceChar(s3, '"', "&quot;");
      && '<' !in r && '>' !in r && '"' !in r
      && ('&' !in s && '<' !in s && '>' !in s && '"' !in s ==> r == s)
  {
    ReplaceAbsent(s1, '<', "&lt;", '<');
    ReplaceAbsent(s2, '>', "&gt;", '<');
    ReplaceAbsent(s3, '"', "&quot;", '<');
    ReplaceAbsent(s2, '>', "&gt;", '>');
    ReplaceAbsent(s3, '"', "&quot;", '>');
    ReplaceAbsent(s3, '"', "&quot;", '"');
    if '&' !in s && '<' !in s && '>' !in s && '"' !in s {
      ReplaceNone(s, '&', "&amp;");
      ReplaceNone(s1, '<', "&lt;");
      ReplaceNone(s2, '>', "&gt;");
      ReplaceNone(s3, '"', "&quot;");
    }
  }

  /** The text that one character becomes. */
  function EscapeChar(c: char): string
  {
    if c == '&' then "&amp;"
    else if c == '<' then "&lt;"
    else if c == '>' then "&gt;"
    else if c == '"' then "&quot;"
    else [c]
  }

  /** Escaping character by character. */
  function EscapeEach(s: string): string
  {
    if s == [] then [] else EscapeChar(s[0]) + EscapeEach(s[1..])
  }

  /** Decoding of the four references `xmlEscape` produces. */
  function Unescape(s: string): string
  {
    if s == [] then []
    else if HasPrefix(s, "&amp;") then "&" + Unescape(s[5..])
    else if HasPrefix(s, "&lt;") then "<" + Unescape(s[4..])
    else if HasPrefix(s, "&gt;") then ">" + Unescape(s[4..])
    else if HasPrefix(s, "&quot;") then "\"" + Unescape(s[6..])
    else [s[0]] + Unescape(s[1..])
  }

  lemma {:induction false} ReplaceAppend(a: string, b: string, c: char, rep: string)
    ensures ReplaceChar(a + b, c, rep) == ReplaceChar(a, c, rep) + ReplaceChar(b, c, rep)
    decreases |a|
  {
    if a == [] {
      assert a + b == b;
    } else {
      assert (a + b)[1..] == a[1..] + b;
      ReplaceAppend(a[1..], b, c, rep);
    }
  }

  /** The four passes together escape each character on its own. */
  lemma {:induction false} XmlEscapeEach(s: string)
    ensures XmlEscape(s) == EscapeEach(s)
    decreases |s|
  {
    if s != [] {
      var x, rest := [s[0]], s[1..];
      assert s == x + rest;
      ReplaceAppend(x, rest, '&', "&amp;");
      var a1, b1 := ReplaceChar(x, '&', "&amp;"), ReplaceChar(rest, '&', "&amp;");
      ReplaceAppend(a1, b1, '<', "&lt;");
      var a2, b2 := ReplaceChar(a1, '<', "&lt;"), ReplaceChar(b1, '<', "&lt;");
      ReplaceAppend(a2, b2, '>', "&gt;");
      var a3, b3 := ReplaceChar(a2, '>', "&gt;"), ReplaceChar(b2, '>', "&gt;");
      ReplaceAppend(a3, b3, '"', "&quot;");
      EscapeOne(s[0]);
      XmlEscapeEach(rest);
    }
  }

  lemma EscapeOne(c: char)
    ensures XmlEscape([c]) == EscapeChar(c)
  {
    if c == '&' {
      EscapeSpecial(c, "&amp;");
    } else if c == '<' {
      EscapeSpecial(c, "&lt;");
    } else if c == '>' {
      EscapeSpecial(c, "&gt;");
    } else if c == '"' {
      EscapeSpecial(c, "&quot;");
    }
  }

  /** A special character becomes its escape sequence, which the later passes leave alone. */
  lemma EscapeSpecial(c: char, e: string)
    requires e == EscapeChar(c) && e != [c]
    requires '<' !in e[1..] && '>' !in e[1..] && '"' !in e[1..] && e[0] == '&'
    ensures XmlEscape([c]) == e
  {
    var s1 := ReplaceSingle(c, '&', "&amp;");
    var s2 := ReplaceChar(s1, '<', "&lt;");
    var s3 := ReplaceChar(s2, '>', "&gt;");
    assert XmlEscape([c]) == ReplaceChar(s3, '"', "&quot;");
    assert e == [e[0]] + e[1..];
    if c == '&' {
      EscapeTail(s1, s2, s3);
    } else {
      var t2 := ReplaceSingle(c, '<', "&lt;");
      if c == '<' {
        EscapeTail(t2, s2, s3);
      } else {
        var t3 := ReplaceSingle(c, '>', "&gt;");
        if c == '>' {
          ReplaceNone(s3, '"', "&quot;");
        } else {
          var r := ReplaceSingle(c, '"', "&quot;");
        }
      }
    }
  }

  /** An escape sequence already in place passes the later replacements unchanged. */
  lemma EscapeTail(e: string, s2: string, s3: string)
    requires '<' !in e && '>' !in e && '"' !in e
    requires s2 == ReplaceChar(e, '<', "&lt;") || s2 == e
    requires s3 == ReplaceChar(s2, '>', "&gt;")
    ensures ReplaceChar(s3, '"', "&quot;") == e
  {
    ReplaceNone(e, '<', "&lt;");
    ReplaceNone(e, '>', "&gt;");
    ReplaceNone(e, '"', "&quot;");
  }

  /** One pass over a single character. */
  lemma ReplaceSingle(x: char, c: char, rep: string) returns (r: string)
    ensures r == ReplaceChar([x], c, rep) && r == (if x == c then rep else [x])
  {
    assert [x][1..] == [];
    r := ReplaceChar([x], c, rep);
  }

  /** Decoding what was escaped gives back the text. */
  lemma {:induction false} UnescapeEscape(s: string)
    ensures Unescape(XmlEscape(s)) == s
  {
    XmlEscapeEach(s);
    UnescapeEach(s);
  }

  lemma {:induction false} UnescapeEach(s: string)
    ensures Unescape(EscapeEach(s)) == s
    decreases |s|
  {
    if s != [] {
      var e, t := EscapeChar(s[0]), EscapeEach(s[1..]);
      UnescapeChar(s[0], t);
      UnescapeEach(s[1..]);
      assert s == [s[0]] + s[1..];
    }
  }

  lemma UnescapeChar(c: char, t: string)
    ensures Unescape(EscapeChar(c) + t) == [c] + Unescape(t)
  {
    var e := EscapeChar(c);
    var u := e + t;
    assert u[..|e|] == e && u[|e|..] == t;
    if c == '&' {
      assert HasPrefix(u, "&amp;");
    } else if c == '<' {
      assert u[1] == 'l' && !HasPrefix(u, "&amp;");
      assert HasPrefix(u, "&lt;");
    } else if c == '>' {
      assert u[1] == 'g' && !HasPrefix(u, "&amp;") && !HasPrefix(u, "&lt;");
      assert HasPrefix(u, "&gt;");
    } else if c == '"' {
      assert u[1] == 'q' && !HasPrefix(u, "&amp;") && !HasPrefix(u, "&lt;") && !HasPrefix(u, "&gt;");
      assert HasPrefix(u, "&quot;");
    } else {
      assert u[0] == c && u[1..] == t;
      assert !HasPrefix(u, "&amp;") && !HasPrefix(u, "&lt;") && !HasPrefix(u, "&gt;") && !HasPrefix(u, "&quot;");
    }
  }
}
