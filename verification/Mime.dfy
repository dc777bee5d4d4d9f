/** The extension table and the lookups built on it: `getMimeByExte` and
    `getMimeByPath` (util.js). */
module Mime {
  import opened Base
  import opened Strings
  import opened DataUrl

  /** One row of the table: a media type and the comma-framed list of its
      extensions. */
  datatype Entry = Entry(mime: string, exts: string)

  /** The table of util.js in its declaration order, which is the order a
      `for (k in mediaTypes)` loop visits it. */
  const MediaTypes: seq<Entry> := [
    Entry("text/plain", ",txt,c,h,bas,"),
    Entry("text/x-log", ",log,"),
    Entry("text/x-sql", ",sql,"),
    Entry("text/richtext", ",rtx,"),
    Entry("text/css", ",css,"),
    Entry("text/csv", ",csv,"),
    Entry("text/vcard", ",vcf,"),
    Entry("text/html", ",htm,html,xhtml,xht,stm,shtml,shtm,"),
    Entry("text/markdown", ",md,"),
    Entry("text/php", ",php,"),
    Entry("text/x-pl", ",pl,"),
    Entry("text/x-python", ",py,"),
    Entry("text/java", ",java,"),
    Entry("text/jsp", ",jsp,"),
    Entry("text/asp", ",asp,"),
    Entry("text/xml", ",xml,xslt,wsdl,"),
    Entry("text/javascript", ",js,"),
    Entry("text/*", ",htt,"),
    Entry("audio/wav", ",wav,"),
    Entry("audio/mpeg", ",mp3,"),
    Entry("audio/m4a", ",m4a,"),
    Entry("audio/midi", ",mid,midi,"),
    Entry("audio/ogg", ",ogg,"),
    Entry("audio/x-aiff", ",aif,aifc,aiff,"),
    Entry("audio/x-ms-wma", ",wma,"),
    Entry("audio/x-pn-realaudio", ",ra,ram,"),
    Entry("audio/*", ",ac3,au,m3u,"),
    Entry("video/mpeg", ",mp2,mpa,mpe,mpeg,mpg,mpv2,"),
    Entry("video/mp4", ",mp4,m4v,"),
    Entry("video/flv", ",flv,"),
    Entry("video/quicktime", ",mov,qt,"),
    Entry("video/avi", ",avi,"),
    Entry("video/x-ms-wmv", ",wmv,"),
    Entry("video/x-ms-asf", ",asf,asr,asx,"),
    Entry("video/x-matroska", ",mkv,"),
    Entry("image/jpeg", ",jpe,jpeg,jpg,"),
    Entry("image/png", ",png,"),
    Entry("image/bmp", ",bmp,dib,"),
    Entry("image/emf", ",emf,"),
    Entry("image/wmf", ",wmf,"),
    Entry("image/icon", ",ico,"),
    Entry("image/gif", ",gif,"),
    Entry("image/svg+xml", ",svg,"),
    Entry("image/tiff", ",tif,tiff,"),
    Entry("image/*", ",jp2,svf,cmx,jfif,"),
    Entry("application/ceb", ",ceb,"),
    Entry("application/eps", ",eps,"),
    Entry("application/postscript", ",ps,"),
    Entry("application/illustrator", ",ai,"),
    Entry("application/vnd.rn-realmedia", ",rm,"),
    Entry("application/vnd.rn-realmedia-vbr", ",rmvb,"),
    Entry("application/json", ",json,"),
    Entry("application/kswps", ",wps,wpsx,wpt,wptx,"),
    Entry("application/msword", ",doc,dot,"),
    Entry("application/msworks", ",wcm,wdb,wks,wps,"),
    Entry("application/vnd.openxmlformats-officedocument.wordprocessingml.document", ",docx,dotx,wps,"),
    Entry("application/vnd.ms-project", ",mpp,"),
    Entry("application/vnd.ms-powerpoint", ",pot,pps,ppt,"),
    Entry("application/vnd.openxmlformats-officedocument.presentationml.presentation", ",pptx,"),
    Entry("application/vnd.ms-excel", ",xla,xlc,xlm,xls,xlt,xlw,"),
    Entry("application/vnd.openxmlformats-officedocument.spreadsheetml.sheet", ",xlsx,"),
    Entry("application/vnd.visio", ",vsd,"),
    Entry("application/x-dwg", ",dwg,"),
    Entry("application/x-dxf", ",dxf,"),
    Entry("application/x-rtf", ",rtf,rtx,"),
    Entry("application/x-pdf", ",pdf,"),
    Entry("application/x-zip-compressed", ",zip,"),
    Entry("application/x-rar-compressed", ",rar,"),
    Entry("application/x-compress", ",z,"),
    Entry("application/x-compressed", ",tgz,"),
    Entry("application/x-tar", ",tar,"),
    Entry("application/x-tcl", ",tcl,"),
    Entry("application/x-tex", ",tex,"),
    Entry("application/x-latex", ",latex,"),
    Entry("application/x-shellscript", ",sh,"),
    Entry("application/x-shar", ",shar,"),
    Entry("application/x-stuffit", ",stuffit,"),
    Entry("application/x-gtar", ",gtar,"),
    Entry("application/x-gzip", ",gz,"),
    Entry("application/x-shockwave-flash", ",swf,"),
    Entry("application/java-archive", ",jar,"),
    Entry("application/x-webarchive", ",war,"),
    Entry("application/x-java", ",class,"),
    Entry("application/bin", ",bin,"),
    Entry("application/x-photoshop", ",psd,"),
    Entry("application/x-exe", ",exe,"),
    Entry("application/x-dll", ",dll,"),
    Entry("application/octet-stream", ",7z,3gp,krc,lrc,chm,con,dms,ini,ttf,fon,lha,lzh,"),
    Entry("application/x-perfmon", ",pma,pmc,pml,pmr,pmw,"),
    Entry("application/vnd.ms-access", ",mdb,"),
    Entry("application/cab", ",cab,"),
    Entry("application/vnd.oasis.opendocument.text", ",odt,"),
    Entry("application/vnd.oasis.opendocument.spreadsheet", ",ods,"),
    Entry("application/winhlp", ",hlp,"),
    Entry("application/hta", ",hta,"),
    Entry("application/oda", ",oda,"),
    Entry("application/x-itunes-ipa", ",ipa,"),
    Entry("application/x-mmxp", ",mxp,"),
    Entry("application/*", ",dtd,svf,dat,crd,pub,p12,pfx,"),
    Entry("message/*", ",mht,mhtml,"),
    Entry("x-world/x-vrml", ",wrl,wrz,xaf,xof,")
  ]

  /** `toLowerCase` on the ASCII letters. */
  function AsciiLower(s: string): (r: string)
    ensures |r| == |s|
    ensures forall i :: 0 <= i < |s| ==> !('A' <= r[i] <= 'Z')
    ensures forall i :: 0 <= i < |s| && !('A' <= s[i] <= 'Z') ==> r[i] == s[i]
  {
    seq(|s|, i requires 0 <= i < |s| =>
      if 'A' <= s[i] <= 'Z' then (s[i] as int + 32) as char else s[i])
  }

  /** The first table entry from `i` whose extension list holds `needle`,
      or -1. */
  function LookupFrom(needle: string, i: nat): (r: int)
    requires i <= |MediaTypes|
    ensures r == -1 || i <= r < |MediaTypes|
    ensures r >= 0 ==> Contains(MediaTypes[r].exts, needle)
    ensures forall j :: i <= j < |MediaTypes| && (r == -1 || j < r) ==>
      !Contains(MediaTypes[j].exts, needle)
    decreases |MediaTypes| - i
  {
    if i == |MediaTypes| then -1
    else if Contains(MediaTypes[i].exts, needle) then i
    else LookupFrom(needle, i + 1)
  }

  /** `getMimeByExte`: the first media type listing the extension, compared
      in lower case; `application/octet-stream` for an empty extension or
      one no entry lists. A wildcard type (`image/` followed by a star) is returned as
      it stands, since the `replace` on it discards its result. */
  function GetMimeByExte(ext: string): (mime: string)
    ensures ext == "" ==> mime == DefaultBinaryMime
    ensures mime == DefaultBinaryMime ||
      exists i :: 0 <= i < |MediaTypes| && mime == MediaTypes[i].mime
    ensures ext != "" && mime != DefaultBinaryMime ==>
      exists i :: 0 <= i < |MediaTypes| && mime == MediaTypes[i].mime
        && Contains(MediaTypes[i].exts, "," + AsciiLower(ext) + ",")
        && forall j :: 0 <= j < i ==> !Contains(MediaTypes[j].exts, "," + AsciiLower(ext) + ",")
    ensures ext != "" && (exists i :: 0 <= i < |MediaTypes| && Contains(MediaTypes[i].exts, "," + AsciiLower(ext) + ",")) ==>
      exists i :: 0 <= i < |MediaTypes| && mime == MediaTypes[i].mime
        && Contains(MediaTypes[i].exts, "," + AsciiLower(ext) + ",")
        && forall j :: 0 <= j < i ==> !Contains(MediaTypes[j].exts, "," + AsciiLower(ext) + ",")
    ensures ext != "" && (forall i :: 0 <= i < |MediaTypes| ==> !Contains(MediaTypes[i].exts, "," + AsciiLower(ext) + ",")) ==>
      mime == DefaultBinaryMime
  {
    if ext == "" then DefaultBinaryMime
    else
      var k := LookupFrom("," + AsciiLower(ext) + ",", 0);
      if k == -1 then DefaultBinaryMime else MediaTypes[k].mime
  }

  /** `getMimeByPath`: the type of the text after the first `.` of the last
      path segment; `""` when that segment is empty or has no `.`, or when
      the text after the first `.` is exactly `.meta`. */
  function GetMimeByPath(path: string): (mime: string)
    ensures '.' !in AfterLastSlash(path) ==> mime == ""
    ensures mime != "" ==> IsKnownMime(mime)
  {
    var fileName := AfterLastSlash(path);
    if fileName != "" && '.' in fileName then
      var ext := ExtensionOf(fileName);
      if ext != ".meta" then GetMimeByExte(ext) else ""
    else ""
  }

  /** The text after the first `.` of a file name. */
  function ExtensionOf(fileName: string): string
    requires '.' in fileName
  {
    fileName[IndexOf(fileName, '.') + 1..]
  }

  /** A type `GetMimeByExte` can return. */
  predicate IsKnownMime(mime: string) {
    mime == DefaultBinaryMime || exists i :: 0 <= i < |MediaTypes| && mime == MediaTypes[i].mime
  }

  /** Lower-casing twice is lower-casing once. */
  lemma AsciiLowerIdempotent(s: string)
    ensures AsciiLower(AsciiLower(s)) == AsciiLower(s)
  {
  }

  /** The lookup ignores the case of ASCII letters. */
  lemma GetMimeByExteIgnoresCase(ext: string)
    ensures GetMimeByExte(ext) == GetMimeByExte(AsciiLower(ext))
  {
    AsciiLowerIdempotent(ext);
  }

  /** The type of `dir/name.ext` is the type of `ext` when `name` has no
      `.`; in particular a name ending in `.meta` gets the type of `meta`. */
  lemma GetMimeByPathOfName(dir: string, name: string, ext: string)
    requires '.' !in name && '/' !in name && '/' !in ext
    requires ext != ".meta"
    ensures GetMimeByPath(dir + "/" + name + "." + ext) == GetMimeByExte(ext)
  {
    NameExtension(dir, name, ext);
  }

  lemma NameExtension(dir: string, name: string, ext: string)
    requires '.' !in name && '/' !in name && '/' !in ext
    ensures var fileName := AfterLastSlash(dir + "/" + name + "." + ext);
      && fileName == name + "." + ext
      && '.' in fileName
      && ExtensionOf(fileName) == ext
  {
    var fileName := name + "." + ext;
    assert dir + "/" + name + "." + ext == dir + "/" + fileName;
    AfterLastSlashJoin(dir, fileName);
    IndexOfJoin(name, '.', ext);
    assert fileName[|name|] == '.';
    assert fileName[|name| + 1..] == ext;
  }
}
