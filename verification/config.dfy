/** The archive URL table of `config.py` and the facts about its shape that the reload
    pipeline relies on. */
module Config {
  import opened Basics
  import opened Text

  /** The one replacement field of every template, filled with the `YYYYMMDD` date. */
  const DateField: string := "{date}"

  /** Scheme and host of the two exchanges' archive servers. */
  const NseHost: string := "https://nsearchives.nseindia.com"
  const BseHost: string := "https://www.bseindia.com"

  /** `BASE_URLS`: archive URL template per `"{segment}_{source}"` key. Each value is the
      source's string literal, written as host + folder + '/' + file-name template. */
  const BaseUrls: map<string, string> := map[
    "CM_NSE" := NseHost + "/content/cm" + "/" + "BhavCopy_NSE_CM_0_0_0_" + "{date}" + "_F_0000" + ".csv.zip",
    "FO_NSE" := NseHost + "/content/fo" + "/" + "BhavCopy_NSE_FO_0_0_0_" + "{date}" + "_F_0000" + ".csv.zip",
    "CD_NSE" := NseHost + "/archives/cd/bhav" + "/" + "BhavCopy_NSE_CD_0_0_0_" + "{date}" + "_F_0000" + ".csv.zip",
    "CM_BSE" := BseHost + "/download/BhavCopy/Equity" + "/" + "BhavCopy_BSE_CM_0_0_0_" + "{date}" + "_F_0000" + ".CSV",
    "FO_BSE" := BseHost + "/download/Bhavcopy/Derivative" + "/" + "BhavCopy_BSE_FO_0_0_0_" + "{date}" + "_F_0000" + ".CSV",
    "CD_BSE" := BseHost + "/bsedata/CIML_bhavcopy" + "/" + "BhavCopy_BSE_CD_0_0_0_" + "{date}" + "_F_0000" + ".CSV"
  ]

  predicate IsSegment(sgmt: string)
  {
    sgmt == "CM" || sgmt == "FO" || sgmt == "CD"
  }

  predicate IsSource(src: string)
  {
    src == "NSE" || src == "BSE"
  }

  /** `f"{sgmt}_{src}"`. */
  function UrlKey(sgmt: string, src: string): string
  {
    sgmt + "_" + src
  }

  /** The archive URL for a segment, source and compact date, or `None` when the table has
      no entry for the key (the pipeline then fails before any download). */
  function FileUrl(sgmt: string, src: string, date: string): (r: Option<string>)
    ensures r.Some? <==> UrlKey(sgmt, src) in BaseUrls
  {
    var key := UrlKey(sgmt, src);
    if key in BaseUrls then Some(Substitute(BaseUrls[key], DateField, date)) else None
  }

  function Host(src: string): string
  {
    if src == "NSE" then NseHost else BseHost
  }

  /** The path of each archive's folder on its host. */
  function FolderPath(sgmt: string, src: string): string
  {
    if src == "NSE" then
      (if sgmt == "CM" then "/content/cm" else if sgmt == "FO" then "/content/fo" else "/archives/cd/bhav")
    else
      (if sgmt == "CM" then "/download/BhavCopy/Equity"
       else if sgmt == "FO" then "/download/Bhavcopy/Derivative"
       else "/bsedata/CIML_bhavcopy")
  }

  /** The folder of each archive, i.e. the template up to its last '/'. */
  function ArchiveFolder(sgmt: string, src: string): string
  {
    Host(src) + FolderPath(sgmt, src)
  }

  /** The text of the archive name before the date field. */
  function ArchiveStem(sgmt: string, src: string): string
  {
    "BhavCopy_" + src + "_" + sgmt + "_0_0_0_"
  }

  /** The text of the archive name after the date field: a zipped CSV on the national
      exchange, a bare upper-case `.CSV` on the Bombay exchange. */
  function ArchiveTail(src: string): string
  {
    "_F_0000" + Extension(src)
  }

  function Extension(src: string): string
  {
    if src == "NSE" then ".csv.zip" else ".CSV"
  }

  /** Every template is `folder/BhavCopy_{src}_{sgmt}_0_0_0_{date}<tail>`. */
  lemma TemplateShape(sgmt: string, src: string)
    requires IsSegment(sgmt) && IsSource(src)
    ensures UrlKey(sgmt, src) in BaseUrls
    ensures BaseUrls[UrlKey(sgmt, src)]
            == ArchiveFolder(sgmt, src) + "/" + ArchiveStem(sgmt, src) + DateField + ArchiveTail(src)
  {
    var stem := ArchiveStem(sgmt, src);
    if src == "NSE" {
      if sgmt == "CM" {
        assert UrlKey(sgmt, src) == "CM_NSE";
        assert stem == "BhavCopy_NSE_CM_0_0_0_";
      } else if sgmt == "FO" {
        assert UrlKey(sgmt, src) == "FO_NSE";
        assert stem == "BhavCopy_NSE_FO_0_0_0_";
      } else {
        assert UrlKey(sgmt, src) == "CD_NSE";
        assert stem == "BhavCopy_NSE_CD_0_0_0_";
      }
    } else {
      if sgmt == "CM" {
        assert UrlKey(sgmt, src) == "CM_BSE";
        assert stem == "BhavCopy_BSE_CM_0_0_0_";
      } else if sgmt == "FO" {
        assert UrlKey(sgmt, src) == "FO_BSE";
        assert stem == "BhavCopy_BSE_FO_0_0_0_";
      } else {
        assert UrlKey(sgmt, src) == "CD_BSE";
        assert stem == "BhavCopy_BSE_CD_0_0_0_";
      }
    }
  }

  /** A key built from two strings without '_' splits back into those two strings. */
  lemma UrlKeySplit(sgmt: string, src: string, seg: string, s: string)
    requires '_' !in seg && '_' !in s
    requires UrlKey(sgmt, src) == UrlKey(seg, s)
    ensures sgmt == seg && src == s
  {
    var k := UrlKey(seg, s);
    var u, v := |sgmt|, |seg|;
    assert k[u] == '_';
    assert sgmt == k[..u] == seg;
    assert src == k[u + 1..] == s;
  }

  /** The table has exactly one entry per segment CM, FO, CD and source NSE, BSE: a key is
      present exactly for those pairs. */
  lemma UrlKeyPresent(sgmt: string, src: string)
    ensures UrlKey(sgmt, src) in BaseUrls <==> IsSegment(sgmt) && IsSource(src)
  {
    if UrlKey(sgmt, src) in BaseUrls {
      var k := UrlKey(sgmt, src);
      if k == "CM_NSE" { UrlKeySplit(sgmt, src, "CM", "NSE"); }
      else if k == "FO_NSE" { UrlKeySplit(sgmt, src, "FO", "NSE"); }
      else if k == "CD_NSE" { UrlKeySplit(sgmt, src, "CD", "NSE"); }
      else if k == "CM_BSE" { UrlKeySplit(sgmt, src, "CM", "BSE"); }
      else if k == "FO_BSE" { UrlKeySplit(sgmt, src, "FO", "BSE"); }
      else { UrlKeySplit(sgmt, src, "CD", "BSE"); }
    }
    if IsSegment(sgmt) && IsSource(src) {
      TemplateShape(sgmt, src);
    }
  }

  /** `BASE_URLS` has exactly six keys. */
  lemma SixKeys()
    ensures |BaseUrls| == 6
  {
    assert BaseUrls.Keys == {"CM_NSE", "FO_NSE", "CD_NSE", "CM_BSE", "FO_BSE", "CD_BSE"};
  }

  lemma NotInConcat(c: char, a: string, b: string)
    requires c !in a && c !in b
    ensures c !in a + b
  {
  }

  lemma NoBraceInHost(src: string)
    ensures '{' !in Host(src)
  {
    if src == "NSE" {
      assert '{' !in NseHost;
    } else {
      assert '{' !in BseHost;
    }
  }

  lemma NoBraceInFolderPath(sgmt: string, src: string)
    ensures '{' !in FolderPath(sgmt, src)
  {
    if src == "NSE" {
      if sgmt == "CM" { assert '{' !in "/content/cm"; }
      else if sgmt == "FO" { assert '{' !in "/content/fo"; }
      else { assert '{' !in "/archives/cd/bhav"; }
    } else {
      if sgmt == "CM" { assert '{' !in "/download/BhavCopy/Equity"; }
      else if sgmt == "FO" { assert '{' !in "/download/Bhavcopy/Derivative"; }
      else { assert '{' !in "/bsedata/CIML_bhavcopy"; }
    }
  }

  /** No character of a template outside its date field opens a replacement field. */
  lemma NoBraceOutsideField(sgmt: string, src: string)
    requires IsSegment(sgmt) && IsSource(src)
    ensures '{' !in ArchiveFolder(sgmt, src) + "/" + ArchiveStem(sgmt, src)
    ensures '{' !in ArchiveTail(src)
  {
    NoBraceInHost(src);
    NoBraceInFolderPath(sgmt, src);
    NotInConcat('{', Host(src), FolderPath(sgmt, src));
    var stem := ArchiveStem(sgmt, src);
    assert '{' !in stem;
    NotInConcat('{', ArchiveFolder(sgmt, src), "/");
    NotInConcat('{', ArchiveFolder(sgmt, src) + "/", stem);
  }

  /** Every template holds the date field exactly once, and formatting it with a date puts
      the date between the archive stem and the tail. */
  lemma TemplateFormat(sgmt: string, src: string, date: string)
    requires IsSegment(sgmt) && IsSource(src)
    requires '{' !in date
    ensures UrlKey(sgmt, src) in BaseUrls
    ensures Occurrences(BaseUrls[UrlKey(sgmt, src)], DateField) == 1
    ensures FileUrl(sgmt, src, date)
            == Some(ArchiveFolder(sgmt, src) + "/" + ArchiveStem(sgmt, src) + date + ArchiveTail(src))
  {
    TemplateShape(sgmt, src);
    var a := ArchiveFolder(sgmt, src) + "/" + ArchiveStem(sgmt, src);
    var b := ArchiveTail(src);
    NoBraceOutsideField(sgmt, src);
    SubstituteOnce(a, b, DateField, date);
    assert BaseUrls[UrlKey(sgmt, src)] == a + DateField + b;
  }

  /** National-exchange templates name a `.csv.zip` archive and Bombay-exchange templates a
      bare `.CSV`, matching the pipeline's unzip-versus-save-as-is branch. */
  lemma TemplateSuffix(sgmt: string, src: string)
    requires IsSegment(sgmt) && IsSource(src)
    ensures UrlKey(sgmt, src) in BaseUrls
    ensures Extension(src) == (if src == "NSE" then ".csv.zip" else ".CSV")
    ensures var t := BaseUrls[UrlKey(sgmt, src)]; var e := Extension(src);
            |t| >= |e| && t[|t| - |e|..] == e
  {
    TemplateShape(sgmt, src);
    var front := ArchiveFolder(sgmt, src) + "/" + ArchiveStem(sgmt, src) + DateField + "_F_0000";
    assert BaseUrls[UrlKey(sgmt, src)] == front + Extension(src);
    EndsWith(front, Extension(src));
  }

  lemma EndsWith(front: string, tail: string)
    ensures var t := front + tail; t[|t| - |tail|..] == tail
  {
  }
}
