/** File names and the text stamped into the footer. */
module Naming {
  import opened Text

  const TempPrefix: string := "temp_"

  /** {design}_{substrate}_{height}ft_{bleed}mm.pdf */
  function FinalName(design: string, substrate: string, heightFt: nat, bleedMm: int): string
  {
    design + "_" + substrate + "_" + NatToString(heightFt) + "ft_" + IntToString(bleedMm) + "mm.pdf"
  }

  /** temp_{height}ft_{substrate}_{bleed}mm.pdf, the tiled document before its footer. */
  function TempName(heightFt: nat, substrate: string, bleedMm: int): string
  {
    TempPrefix + NatToString(heightFt) + "ft_" + substrate + "_" + IntToString(bleedMm) + "mm.pdf"
  }

  const Materials: map<string, string> :=
    map["TRAD" := "Traditional", "P&S" := "Peel & Stick", "PP" := "Pre-Pasted"]

  /** The material's full name; an unknown code is shown as it is. */
  function MaterialName(substrate: string): (name: string)
    ensures substrate in Materials ==> name == Materials[substrate]
    ensures name == substrate <==> substrate !in Materials
  {
    if substrate in Materials then Materials[substrate] else substrate
  }

  /** The panel height as stamped in the footer, e.g. 13ft" */
  function HeightLabel(heightFt: nat): string
  {
    NatToString(heightFt) + "ft\""
  }

  /** The single line of text samples.py stamps into the footer. */
  function DetailText(design: string, substrate: string, bleedMm: int): string
  {
    design + " | " + substrate + " | " + IntToString(bleedMm) + "mm"
  }

  /** The per-height footer document samples.py looks for. */
  function FooterAssetName(heightFt: nat): string
  {
    "LemonPark" + NatToString(heightFt) + "_Footer.pdf"
  }

  /** The design name create_pdf uses when none is given: the image's file
      name without directory and extension. */
  function ImageDesignName(imagePath: string): string
  {
    Stem(Basename(imagePath))
  }

  /** The design name overlay_footer uses when none is given: the file name
      of the base PDF without extension, with every "temp_" removed, cut at
      the first underscore. */
  function DesignFallback(basePath: string): (design: string)
    ensures '_' !in design
    ensures design <= RemoveAll(Stem(Basename(basePath)), TempPrefix)
    ensures var s := RemoveAll(Stem(Basename(basePath)), TempPrefix);
      |design| < |s| ==> s[|design|] == '_'
  {
    Before(RemoveAll(Stem(Basename(basePath)), TempPrefix), '_')
  }

  /** Different (substrate, height, bleed) combinations of one design never
      share an output file, as long as substrate codes have no underscore. */
  lemma FinalNameInjective(design: string, s1: string, h1: nat, b1: int, s2: string, h2: nat, b2: int)
    requires '_' !in s1 && '_' !in s2
    requires FinalName(design, s1, h1, b1) == FinalName(design, s2, h2, b2)
    ensures s1 == s2 && h1 == h2 && b1 == b2
  {
    var n1, n2 := NatToString(h1), NatToString(h2);
    var i1, i2 := IntToString(b1), IntToString(b2);
    var t1, t2 := n1 + "ft_" + i1 + "mm.pdf", n2 + "ft_" + i2 + "mm.pdf";
    assert FinalName(design, s1, h1, b1) == design + "_" + s1 + "_" + t1;
    assert FinalName(design, s2, h2, b2) == design + "_" + s2 + "_" + t2;
    SubstrateField(design, s1, t1, s2, t2);
    HeightAndBleedFields(n1, i1, n2, i2);
    NatToStringInjective(h1, h2);
    IntToStringInjective(b1, b2);
  }

  lemma SubstrateField(design: string, s1: string, t1: string, s2: string, t2: string)
    requires '_' !in s1 && '_' !in s2
    requires design + "_" + s1 + "_" + t1 == design + "_" + s2 + "_" + t2
    ensures s1 == s2 && t1 == t2
  {
    var n := |design| + 1;
    assert design + "_" + s1 + "_" + t1 == (design + "_") + (s1 + "_" + t1);
    assert design + "_" + s2 + "_" + t2 == (design + "_") + (s2 + "_" + t2);
    assert s1 + "_" + t1 == (design + "_" + s1 + "_" + t1)[n..] == s2 + "_" + t2;
    BeforeSeparator(s1, '_', t1);
    BeforeSeparator(s2, '_', t2);
    assert t1 == (s1 + "_" + t1)[|s1| + 1..];
    assert t2 == (s2 + "_" + t2)[|s2| + 1..];
  }

  lemma HeightAndBleedFields(n1: string, i1: string, n2: string, i2: string)
    requires AllDigits(n1) && AllDigits(n2)
    requires n1 + "ft_" + i1 + "mm.pdf" == n2 + "ft_" + i2 + "mm.pdf"
    ensures n1 == n2 && i1 == i2
  {
    var u1, u2 := "ft_" + i1 + "mm.pdf", "ft_" + i2 + "mm.pdf";
    assert n1 + "ft_" + i1 + "mm.pdf" == n1 + u1;
    assert n2 + "ft_" + i2 + "mm.pdf" == n2 + u2;
    DigitRunUnique(n1, u1, n2, u2);
    assert i1 == u1[3..|u1| - 6] == u2[3..|u2| - 6] == i2;
  }

  /** Each height label names one height. */
  lemma HeightLabelInjective(h1: nat, h2: nat)
    requires HeightLabel(h1) == HeightLabel(h2)
    ensures h1 == h2
  {
    DigitRunUnique(NatToString(h1), "ft\"", NatToString(h2), "ft\"");
    NatToStringInjective(h1, h2);
  }

  /** Each panel height selects its own footer document. */
  lemma FooterAssetNameInjective(h1: nat, h2: nat)
    requires FooterAssetName(h1) == FooterAssetName(h2)
    ensures h1 == h2
  {
    var n1, n2 := NatToString(h1), NatToString(h2);
    var a1, a2 := FooterAssetName(h1), FooterAssetName(h2);
    assert a1 == "LemonPark" + (n1 + "_Footer.pdf");
    assert a2 == "LemonPark" + (n2 + "_Footer.pdf");
    assert n1 + "_Footer.pdf" == a1[9..] == a2[9..] == n2 + "_Footer.pdf";
    DigitRunUnique(n1, "_Footer.pdf", n2, "_Footer.pdf");
    NatToStringInjective(h1, h2);
  }

  /** Design, substrate and bleed can be read back from the detail text, as
      long as the design and the substrate contain no '|'. */
  lemma DetailTextInjective(d1: string, s1: string, b1: int, d2: string, s2: string, b2: int)
    requires '|' !in d1 && '|' !in d2 && '|' !in s1 && '|' !in s2
    requires DetailText(d1, s1, b1) == DetailText(d2, s2, b2)
    ensures d1 == d2 && s1 == s2 && b1 == b2
  {
    var n1, n2 := IntToString(b1) + "mm", IntToString(b2) + "mm";
    assert DetailText(d1, s1, b1) == d1 + " | " + (s1 + " | " + n1);
    assert DetailText(d2, s2, b2) == d2 + " | " + (s2 + " | " + n2);
    BarField(d1, s1 + " | " + n1, d2, s2 + " | " + n2);
    BarField(s1, n1, s2, n2);
    assert IntToString(b1) == n1[..|n1| - 2] == n2[..|n2| - 2] == IntToString(b2);
    IntToStringInjective(b1, b2);
  }

  lemma BarField(a1: string, t1: string, a2: string, t2: string)
    requires '|' !in a1 && '|' !in a2
    requires a1 + " | " + t1 == a2 + " | " + t2
    ensures a1 == a2 && t1 == t2
  {
    var x1, x2 := a1 + " ", a2 + " ";
    assert a1 + " | " + t1 == x1 + ['|'] + (" " + t1);
    assert a2 + " | " + t2 == x2 + ['|'] + (" " + t2);
    BeforeSeparator(x1, '|', " " + t1);
    BeforeSeparator(x2, '|', " " + t2);
    assert a1 == x1[..|x1| - 1] == x2[..|x2| - 1] == a2;
    assert t1 == (a1 + " | " + t1)[|a1| + 3..];
    assert t2 == (a2 + " | " + t2)[|a2| + 3..];
  }

  /** The design name create_pdf derives from "<dir>/<stem>.<ext>" is stem. */
  lemma ImageDesignNameOf(dir: string, stem: string, ext: string)
    requires '/' !in stem && '/' !in ext && '.' !in ext && !OnlyDots(stem)
    ensures ImageDesignName(dir + "/" + stem + "." + ext) == stem
  {
    assert dir + "/" + stem + "." + ext == dir + "/" + (stem + "." + ext);
    BasenameAfterSlash(dir, stem + "." + ext);
    StemOfExtension(stem, ext);
  }

  /** Applied to the temporary file create_pdf hands to overlay_footer, the
      fallback does not recover a design name: what is left after removing
      "temp_" begins with the height, so the result is "<height>ft". */
  lemma FallbackOfTempName(heightFt: nat, substrate: string, bleedMm: int)
    requires '/' !in substrate
    ensures DesignFallback(TempName(heightFt, substrate, bleedMm)) == NatToString(heightFt) + "ft"
  {
    var digits, number := NatToString(heightFt), IntToString(bleedMm);
    assert '/' !in number by {
      forall k | 0 <= k < |number| ensures number[k] != '/' {
        if k > 0 { assert IsDigit(number[k]); }
      }
    }
    var p := TempNameShape(digits, substrate, number);
    FallbackOfShape(TempName(heightFt, substrate, bleedMm), p, |digits|);
  }

  /** The pieces of the temporary file name the fallback looks at. */
  lemma TempNameShape(digits: string, substrate: string, number: string) returns (p: string)
    requires AllDigits(digits) && '/' !in substrate && '/' !in number
    ensures TempPrefix + digits + "ft_" + substrate + "_" + number + "mm.pdf" == p + "mm.pdf"
    ensures '/' !in p + "mm.pdf"
    ensures |digits| + 8 <= |p| && p[..5] == TempPrefix && AllDigits(p[5..5 + |digits|])
    ensures p[5 + |digits|] == 'f' && p[6 + |digits|] == 't' && p[7 + |digits|] == '_'
    ensures p[5..7 + |digits|] == digits + "ft"
  {
    var k := |digits|;
    var q := TempPrefix + digits + "ft_";
    p := q + substrate + "_" + number;
    assert forall i :: 0 <= i < k ==> digits[i] != '/';
    assert p[..|q|] == q;
    assert q[..5] == TempPrefix && q[5..5 + k] == digits;
    assert p[5..5 + k] == digits;
    assert p[5..7 + k] == digits + "ft";
  }

  /** The fallback on "temp_<k digits>ft_...mm.pdf" is "<k digits>ft". */
  lemma FallbackOfShape(name: string, p: string, k: nat)
    requires name == p + "mm.pdf" && '/' !in name
    requires k + 8 <= |p| && p[..5] == TempPrefix && AllDigits(p[5..5 + k])
    requires p[5 + k] == 'f' && p[6 + k] == 't' && p[7 + k] == '_'
    ensures DesignFallback(name) == p[5..7 + k]
  {
    var stem := StemOfPdfPath(name, p);
    var x := AfterPrefix(stem, p, k);
    RemoveAllAtStart(TempPrefix, x);
    HeightFirst(x, k);
  }

  /** What follows "temp_" in the stem "<p>mm". */
  lemma AfterPrefix(stem: string, p: string, k: nat) returns (x: string)
    requires stem == p + "mm"
    requires k + 8 <= |p| && p[..5] == TempPrefix && AllDigits(p[5..5 + k])
    requires p[5 + k] == 'f' && p[6 + k] == 't' && p[7 + k] == '_'
    ensures stem == TempPrefix + x && k + 3 <= |x| && AllDigits(x[..k])
    ensures x[k] == 'f' && x[k + 1] == 't' && x[k + 2] == '_' && x[..k + 2] == p[5..7 + k]
  {
    x := stem[5..];
    assert stem[..5] == p[..5];
    assert x[..k] == p[5..5 + k];
    assert x[..k + 2] == p[5..7 + k];
  }

  lemma StemOfPdfPath(name: string, p: string) returns (stem: string)
    requires name == p + "mm.pdf" && '/' !in name && p != [] && p[0] == 't'
    ensures Stem(Basename(name)) == stem && stem == p + "mm" && stem[..|p|] == p
  {
    BasenameOfPlain(name);
    stem := StemOfPdf(name, p);
  }

  /** The stem of "<p>mm.pdf", where p starts with a 't', is "<p>mm". */
  lemma StemOfPdf(name: string, p: string) returns (stem: string)
    requires name == p + "mm.pdf" && p != [] && p[0] == 't'
    ensures Stem(name) == stem && stem == p + "mm" && stem[..|p|] == p
  {
    stem := p + "mm";
    assert name == stem + "." + "pdf";
    assert stem[0] == 't';
    StemOfExtension(stem, "pdf");
  }

  lemma BasenameOfPlain(path: string)
    requires '/' !in path
    ensures Basename(path) == path
  {
    var name := Basename(path);
    assert |name| == |path|;
  }

  /** A string made of a run of k digits, then "ft_", keeps "<digits>ft" as
      its first underscore-separated field once "temp_" is removed. */
  lemma HeightFirst(s: string, k: nat)
    requires k + 3 <= |s| && AllDigits(s[..k])
    requires s[k] == 'f' && s[k + 1] == 't' && s[k + 2] == '_'
    ensures Before(RemoveAll(s, TempPrefix), '_') == s[..k + 2]
  {
    var head, tail := s[..k + 2], s[k + 2..];
    assert s == head + tail;
    forall i | 0 <= i < |head|
      ensures !OccursAt(head + tail, i, TempPrefix)
    {
      NoTempPrefixAt(s, k, i);
    }
    RemoveAllKeepsPrefix(head, tail, TempPrefix);
    var rest := RemoveAllAfterUnderscore(tail);
    assert head + ("_" + rest) == head + "_" + rest;
    NoUnderscoreBefore(s, k);
    BeforeSeparator(head, '_', rest);
  }

  lemma RemoveAllAfterUnderscore(tail: string) returns (rest: string)
    requires tail != [] && tail[0] == '_'
    ensures RemoveAll(tail, TempPrefix) == "_" + rest
  {
    rest := RemoveAll(tail[1..], TempPrefix);
    assert tail == "_" + tail[1..];
    assert !OccursAt("_" + tail[1..], 0, TempPrefix) by {
      assert TempPrefix[0] == 't';
    }
    RemoveAllKeepsPrefix("_", tail[1..], TempPrefix);
  }

  lemma NoUnderscoreBefore(s: string, k: nat)
    requires k + 2 <= |s| && AllDigits(s[..k]) && s[k] == 'f' && s[k + 1] == 't'
    ensures '_' !in s[..k + 2]
  {
    forall i | 0 <= i < k ensures s[i] != '_' {
      assert s[..k][i] == s[i];
    }
  }

  lemma NoTempPrefixAt(s: string, k: nat, i: nat)
    requires k + 3 <= |s| && AllDigits(s[..k])
    requires s[k] == 'f' && s[k + 1] == 't' && s[k + 2] == '_'
    requires i < k + 2
    ensures !OccursAt(s, i, TempPrefix)
  {
    if i + |TempPrefix| <= |s| {
      assert TempPrefix[0] == 't' && TempPrefix[1] == 'e';
      if i < k {
        assert s[i..i + |TempPrefix|][0] == s[..k][i] != 't';
      } else if i == k {
        assert s[i..i + |TempPrefix|][0] == 'f';
      } else {
        assert s[i..i + |TempPrefix|][1] == '_';
      }
    }
  }
}
