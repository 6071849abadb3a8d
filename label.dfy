/**
 * The display label and the link of one data file (`create_text`, the href
 * rewrite and `link_template` in generate_webpage.py).
 */
module Label {
  import opened PyStr

  /** `re.match('\d\d\d\d-', f)`: four ASCII digits and a hyphen at the very start. */
  predicate HasDatePrefix(f: string) {
    |f| >= 5 && IsDigit(f[0]) && IsDigit(f[1]) && IsDigit(f[2]) && IsDigit(f[3]) && f[4] == '-'
  }

  /**
   * The renaming applied to a dated name, in the source's order: drop the
   * five-character prefix, hyphens become spaces, `tagged` is removed, the
   * space before `.osm` is removed, the result is stripped, and a bare `.osm`
   * becomes `all.osm`.
   */
  function DatedLabel(f: string): string
    requires HasDatePrefix(f)
  {
    var e := Strip(Rename(f[5..]));
    if e == ".osm" then "all.osm" else e
  }

  /** The three replacements of the renaming, in order. */
  function Rename(a: string): string {
    Replace(Replace(Replace(a, "-", " "), "tagged", ""), " .osm", ".osm")
  }

  /** The label of an `.osm` name before the `clean-` prefix and the node count. */
  function BaseLabel(f: string): string {
    if HasDatePrefix(f) then DatedLabel(f) else f
  }

  /**
   * Number of nodes found in the file. The parse is disabled in the source
   * (`osm = []`), so this is always the length of an empty list.
   */
  const ParsedNodeCount: nat := 0

  /** `'%s node' % n`, with an `s` added only for more than one node. */
  function NodeCountText(n: nat): (r: string)
    ensures StartsWith(r, NatToString(n) + " node")
    ensures EndsWith(r, "s") <==> n > 1
    ensures |r| == |NatToString(n)| + 5 + (if n > 1 then 1 else 0)
  {
    var base := NatToString(n) + " node";
    assert base[|base| - 1] == 'e';
    base + (if n > 1 then "s" else "")
  }

  /** The annotation appended to every `.osm` label. */
  const NodeSuffix: string := " (" + NodeCountText(ParsedNodeCount) + ")"

  /**
   * `create_text(filename, f)`: the label shown for the file named f whose
   * full path is filename. Names not ending in `.osm` are shown as they are;
   * every `.osm` label ends in exactly ` (0 node)`.
   */
  function CreateText(filename: string, f: string): (r: string)
    ensures !EndsWith(f, ".osm") ==> r == f
    ensures EndsWith(f, ".osm") ==> EndsWith(r, " (0 node)") && !EndsWith(r, "nodes)")
  {
    if EndsWith(f, ".osm") then
      var g := BaseLabel(f);
      var h := if Contains(filename, "clean") then "clean-" + g else g;
      NodeSuffixValue();
      var r := h + NodeSuffix;
      assert r[|r| - 2] == 'e';
      r
    else f
  }

  lemma NodeSuffixValue()
    ensures NodeSuffix == " (0 node)"
  {
    assert NatToString(0) == "0";
  }

  /**
   * The `clean-` prefix is added exactly when `clean` occurs anywhere in the
   * full path, after the renaming and before the node count.
   */
  lemma CleanPrefixIff(filename: string, f: string)
    requires EndsWith(f, ".osm")
    ensures CreateText(filename, f) == "clean-" + BaseLabel(f) + " (0 node)"
            <==> Contains(filename, "clean")
    ensures !Contains(filename, "clean") ==> CreateText(filename, f) == BaseLabel(f) + " (0 node)"
  {
    NodeSuffixValue();
    if !Contains(filename, "clean") {
      assert |CreateText(filename, f)| < |"clean-" + BaseLabel(f) + " (0 node)"|;
    }
  }

  /** An `.osm` name without the date prefix keeps its text. */
  lemma UndatedNameKept(filename: string, f: string)
    requires EndsWith(f, ".osm") && !HasDatePrefix(f)
    ensures CreateText(filename, f) ==
            (if Contains(filename, "clean") then "clean-" else "") + f + " (0 node)"
  {
    NodeSuffixValue();
  }

  /**
   * Dropping the space before `.osm` keeps the name ending in `.osm`: a
   * replacement either leaves the final `.osm` alone or writes `.osm` there.
   */
  lemma DropSpaceKeepsOsm(x: string)
    ensures EndsWith(Replace(x + ".osm", " .osm", ".osm"), ".osm")
  {
    DropSpaceKeepsSuffix(x, " .osm", ".osm");
  }

  /**
   * DropSpaceKeepsOsm, with the pattern and the suffix passed in as
   * parameters equal to the literals: the proof then reasons about them as
   * names rather than unfolding the literals at every step, which keeps it
   * within the verifier's resource limit.
   */
  lemma {:induction false} DropSpaceKeepsSuffix(x: string, pat: string, q: string)
    requires pat == " .osm" && q == ".osm"
    ensures EndsWith(Replace(x + q, pat, q), q)
    decreases |x|
  {
    var s := x + q;
    if x == [] {
      assert s == q;
      ContainsNeedsRoom(q, pat);
      ReplaceAbsent(q, pat, q);
    } else if StartsWith(s, pat) {
      if |x| < 5 {
        PrefixAt(s, pat, |x|);
        assert s[|x|] == '.';
        assert |x| == 1;
        assert s[5..] == [];
      } else {
        assert s[5..] == x[5..] + q;
        DropSpaceKeepsSuffix(x[5..], pat, q);
      }
    } else {
      assert s[1..] == x[1..] + q;
      DropSpaceKeepsSuffix(x[1..], pat, q);
    }
  }

  /** Hyphens become spaces, and no later step of the renaming brings one back. */
  lemma DatedLabelNoHyphen(f: string)
    requires HasDatePrefix(f)
    ensures '-' !in DatedLabel(f)
  {
    var b := Replace(f[5..], "-", " ");
    ReplaceCharRemoves(f[5..], '-', ' ');
    var c := Replace(b, "tagged", "");
    ReplaceNoNewChar(b, "tagged", "", '-');
    ReplaceNoNewChar(c, " .osm", ".osm", '-');
    StripNoNewChar(Rename(f[5..]), UnicodeSpace, '-');
  }

  /** Neither `-` nor any letter of `tagged` occurs in `.osm`. */
  lemma OsmSharesNothing()
    ensures forall k :: 0 <= k < |"-"| ==> "-"[k] !in ".osm"
    ensures forall k :: 0 <= k < |"tagged"| ==> "tagged"[k] !in ".osm"
  {
  }

  /** The text handed to strip still ends in `.osm`. */
  lemma DatedBeforeStripEndsWithOsm(f: string)
    requires HasDatePrefix(f) && EndsWith(f, ".osm")
    ensures EndsWith(Rename(f[5..]), ".osm")
  {
    var a := f[5..];
    assert a[|a| - 4..] == f[|f| - 4..];
    var a' := a[..|a| - 4];
    assert a == a' + ".osm";
    OsmSharesNothing();
    ReplaceDisjointTail(a', ".osm", "-", " ");
    var b' := Replace(a', "-", " ");
    ReplaceDisjointTail(b', ".osm", "tagged", "");
    DropSpaceKeepsOsm(Replace(b', "tagged", ""));
  }

  /** Strip never eats into a trailing `.osm`. */
  lemma StripKeepsOsm(d: string)
    requires EndsWith(d, ".osm")
    ensures EndsWith(Strip(d), ".osm")
  {
    StripKeepsSuffix(d, ".osm", UnicodeSpace);
  }

  /** The label of a dated `.osm` name still ends in `.osm`. */
  lemma DatedLabelEndsWithOsm(f: string)
    requires HasDatePrefix(f) && EndsWith(f, ".osm")
    ensures EndsWith(DatedLabel(f), ".osm")
  {
    DatedBeforeStripEndsWithOsm(f);
    StripKeepsOsm(Rename(f[5..]));
  }

  /** The label of a dated name is never the bare `.osm` and has no whitespace at either end. */
  lemma DatedLabelStripped(f: string)
    requires HasDatePrefix(f)
    ensures var l := DatedLabel(f);
      l != ".osm" && (l != [] ==> l[0] !in UnicodeSpace && l[|l| - 1] !in UnicodeSpace)
  {
    AllOsmShape();
  }

  /** `all.osm` is not `.osm`, and neither starts nor ends with whitespace. */
  lemma AllOsmShape()
    ensures "all.osm" != ".osm" && "all.osm"[0] !in UnicodeSpace && "all.osm"[6] !in UnicodeSpace
  {
    assert |"all.osm"| != |".osm"|;
  }

  /**
   * The renaming of a bare `tagged.osm` leaves only `.osm`. The name is a
   * parameter equal to the literal, for the same reason as in
   * DropSpaceKeepsSuffix.
   */
  lemma RenameTaggedOnly(t: string)
    requires t == "tagged.osm"
    ensures Rename(t) == ".osm"
  {
    AbsentFirstChar(t, "-");
    ReplaceAbsent(t, "-", " ");
    var o := t[6..];
    assert t == "tagged" + o && o == ".osm";
    ReplaceLeading("tagged", o, "");
    AbsentFirstChar(o, "tagged");
    ReplaceAbsent(o, "tagged", "");
    assert Replace(t, "tagged", "") == o;
    ContainsNeedsRoom(o, " .osm");
    ReplaceAbsent(o, " .osm", ".osm");
    assert Replace(o, " .osm", ".osm") == o;
  }

  /**
   * A dated name that is only `tagged` labels the whole region's file:
   * `0301-tagged.osm` is shown as `all.osm (0 node)` outside `clean` paths.
   */
  lemma TaggedOnlyIsAll(filename: string, date: string)
    requires |date| == 4 && AllDigits(date) && !Contains(filename, "clean")
    ensures CreateText(filename, date + "-tagged.osm") == "all.osm (0 node)"
  {
    var f := date + "-tagged.osm";
    TaggedName(date);
    TaggedDatedLabel(date);
    CleanPrefixIff(filename, f);
    AllOsmText();
  }

  /** The date-stripped label of `<date>-tagged.osm` is `all.osm`. */
  lemma TaggedDatedLabel(date: string)
    requires |date| == 4 && AllDigits(date)
    ensures HasDatePrefix(date + "-tagged.osm") && DatedLabel(date + "-tagged.osm") == "all.osm"
  {
    var f := date + "-tagged.osm";
    TaggedName(date);
    RenameTaggedOnly(f[5..]);
    BareOsmStripped(Rename(f[5..]));
  }

  /** Strip leaves `.osm` alone (the literal passed in as in RenameTaggedOnly). */
  lemma BareOsmStripped(o: string)
    requires o == ".osm"
    ensures Strip(o) == o
  {
    assert o[0] == '.' && o[|o| - 1] == 'm';
    StripNothing(o, UnicodeSpace);
  }

  /** `<date>-tagged.osm` carries the date prefix, and what follows it is `tagged.osm`. */
  lemma TaggedName(date: string)
    requires |date| == 4 && AllDigits(date)
    ensures var f := date + "-tagged.osm";
      HasDatePrefix(f) && f[5..] == "tagged.osm" && EndsWith(f, ".osm")
  {
    var f := date + "-tagged.osm";
    assert f[4] == '-' && f[..4] == date;
    assert f[5..] == "tagged.osm";
    assert f[|f| - 4..] == ".osm";
  }

  lemma AllOsmText()
    ensures "all.osm" + " (0 node)" == "all.osm (0 node)"
  {
  }

  // ---------------------------------------------------------------- links

  /** `filename.replace('html/', '')`: the link target, relative to the page. */
  function Href(filename: string): string {
    Replace(filename, "html/", "")
  }

  /** A path under the output root loses only the leading `html/`. */
  lemma HrefDropsOutputRoot(rest: string)
    requires !Contains(rest, "html/")
    ensures Href("html/" + rest) == rest
  {
    ReplaceLeading("html/", rest, "");
    ReplaceAbsent(rest, "html/", "");
  }

  /** A path that does not mention `html/` is its own link target. */
  lemma HrefKeepsOtherPaths(filename: string)
    requires !Contains(filename, "html/")
    ensures Href(filename) == filename
  {
    ReplaceAbsent(filename, "html/", "");
  }

  /** `link_template.format(href=..., title=..., text=...)`, with no escaping. */
  function Link(href: string, title: string, text: string): string {
    "<a href=\"" + href + "\" title=\"" + title + "\">" + text + "</a>"
  }

  /** The text before the first double quote, if there is one. */
  function UntilQuote(s: string): Option<string>
    decreases |s|
  {
    if s == [] then None
    else if s[0] == '"' then Some([])
    else match UntilQuote(s[1..])
      case None => None
      case Some(t) => Some([s[0]] + t)
  }

  /** The value of the leading `href` attribute of a link, read back. */
  function HrefAttribute(link: string): Option<string> {
    if StartsWith(link, "<a href=\"") then UntilQuote(link[9..]) else None
  }

  lemma {:induction false} UntilQuoteOf(h: string, rest: string)
    requires '"' !in h
    ensures UntilQuote(h + "\"" + rest) == Some(h)
    decreases |h|
  {
    if h == [] {
      assert h + "\"" + rest == "\"" + rest;
    } else {
      assert (h + "\"" + rest)[0] == h[0];
      assert (h + "\"" + rest)[1..] == h[1..] + "\"" + rest;
      UntilQuoteOf(h[1..], rest);
      assert [h[0]] + h[1..] == h;
    }
  }

  /** A target without a double quote is what a reader of the link finds in its `href`. */
  lemma LinkHrefRoundTrip(href: string, title: string, text: string)
    requires '"' !in href
    ensures HrefAttribute(Link(href, title, text)) == Some(href)
  {
    var l := Link(href, title, text);
    var rest := " title=\"" + title + "\">" + text + "</a>";
    assert l == "<a href=\"" + (href + "\"" + rest);
    assert l[9..] == href + "\"" + rest;
    UntilQuoteOf(href, rest);
  }
}
