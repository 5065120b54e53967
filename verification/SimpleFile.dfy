/** One file of a Simple API listing: its metadata advertisement, and its way into an
    HTML anchor and back. */
module SimpleFile {
  import opened Wrappers
  import opened Text
  import opened Escape
  import opened HashFragment

  /** The value of a metadata field: missing, a boolean, a string, or hashes by name. */
  datatype Meta = Absent | Flag(flag: bool) | Raw(text: string) | Hashes(entries: map<string, string>)

  datatype Yanked = Unsaid | Said(flag: bool) | Because(reason: string)

  datatype File = File(
    filename: string, url: string, hashes: map<string, string>, requiresPython: Option<string>, yanked: Yanked,
    dist: Meta, core: Meta, size: Option<nat>, uploadTime: Option<string>)

  // ------------------------------------------------------------------ metadata values

  const PREFERENCE := ["sha256", "sha384", "sha512", "blake2b", "sha1", "md5"]

  predicate Usable(entries: map<string, string>, algorithm: string) {
    algorithm in entries && entries[algorithm] != ""
  }

  /** The first algorithm of the preference list with a digest. */
  function Preferred(entries: map<string, string>, order: seq<string> := PREFERENCE): (algorithm: Option<string>)
    ensures algorithm.Some? ==> algorithm.value in order && Usable(entries, algorithm.value)
    ensures algorithm.None? ==> forall a <- order :: !Usable(entries, a)
    decreases |order|
  {
    if order == [] then None
    else if Usable(entries, order[0]) then Some(order[0])
    else Preferred(entries, order[1..])
  }

  function MetadataValueToHtml(m: Meta): Option<string> {
    match m
    case Flag(true) => Some("true")
    case Flag(false) => Some("false")
    case Raw(text) => Some(text)
    case Hashes(entries) =>
      (match Preferred(entries)
       case Some(algorithm) => Some(algorithm + "=" + entries[algorithm])
       case None => None)
    case Absent => None
  }

  /** A value of the form name=digest, with both sides present. */
  predicate IsAssignment(v: string) {
    var eq := Find(v, '=');
    0 < eq < |v| - 1
  }

  function NormMeta(v: string): Meta {
    if Lower(v) == "true" then Flag(true)
    else if Lower(v) == "false" then Flag(false)
    else if IsAssignment(v) then Hashes(map[v[..Find(v, '=')] := v[Find(v, '=') + 1..]])
    else Raw(v)
  }

  /** A value printed into HTML and read again. */
  function Rendered(m: Meta): Meta {
    match MetadataValueToHtml(m)
    case Some(v) => NormMeta(v)
    case None => Absent
  }

  lemma FlagsAreRead()
    ensures NormMeta("true") == Flag(true) && NormMeta("false") == Flag(false)
  {
    LowerKeeps("true");
    LowerKeeps("false");
    hide Lower;
    assert |"true"| != |"false"|;
  }

  lemma PreferredIsPlain(algorithm: string)
    requires algorithm in PREFERENCE
    ensures algorithm != "" && '=' !in algorithm
  {
  }

  lemma AssignmentIsRead(algorithm: string, digest: string)
    requires algorithm != "" && '=' !in algorithm && digest != ""
    ensures NormMeta(algorithm + "=" + digest) == Hashes(map[algorithm := digest])
  {
    var v := algorithm + "=" + digest;
    assert v[|algorithm|] == '=' && Lower(v)[|algorithm|] == '=';
    assert forall i :: 0 <= i < |algorithm| ==> v[i] == algorithm[i];
    assert Find(v, '=') == |algorithm|;
    assert v[..|algorithm|] == algorithm && v[|algorithm| + 1..] == digest;
  }

  /** A mapping comes back as its preferred hash alone, and stays that from then on. */
  lemma MappingRenders(entries: map<string, string>)
    ensures var preferred, once := Preferred(entries), Rendered(Hashes(entries));
      && once == (if preferred.Some? then Hashes(map[preferred.value := entries[preferred.value]]) else Absent)
      && MetadataValueToHtml(once) == MetadataValueToHtml(Hashes(entries))
      && Rendered(once) == once
  {
    match Preferred(entries) {
      case Some(algorithm) =>
        PreferredIsPlain(algorithm);
        AssignmentIsRead(algorithm, entries[algorithm]);
        OnlyEntry(algorithm, entries[algorithm]);
      case None =>
    }
  }

  /** SHA-256 comes first, then the other SHA-2, BLAKE2b, SHA-1 and MD5; others never. */
  function Place(algorithm: string): Option<nat> {
    match algorithm
    case "sha256" => Some(0)
    case "sha384" => Some(1)
    case "sha512" => Some(2)
    case "blake2b" => Some(3)
    case "sha1" => Some(4)
    case "md5" => Some(5)
    case _ => None
  }

  /** The hash that is printed is the first by place that has a digest. */
  lemma PreferredExactly(entries: map<string, string>, algorithm: string)
    ensures Preferred(entries) == Some(algorithm) <==>
      && Place(algorithm).Some? && algorithm in entries && entries[algorithm] != ""
      && forall other :: other in entries && entries[other] != "" && Place(other).Some? ==> Place(algorithm).value <= Place(other).value
    ensures Preferred(entries).None? <==> forall other :: other in entries && Place(other).Some? ==> entries[other] == ""
  {
    PreferredAt(entries, PREFERENCE);
    PlacesAreOrder();
    hide Preferred;
    hide Place;
    if Preferred(entries).Some? {
      var i :| FirstUsable(entries, PREFERENCE, i) && PREFERENCE[i] == Preferred(entries).value;
      assert Place(PREFERENCE[i]) == Some(i);
    }
  }

  lemma PlacesAreOrder()
    ensures forall i :: 0 <= i < |PREFERENCE| ==> Place(PREFERENCE[i]) == Some(i)
    ensures forall other :: Place(other).Some? ==> Place(other).value < |PREFERENCE| && PREFERENCE[Place(other).value] == other
  {
  }

  predicate FirstUsable(entries: map<string, string>, order: seq<string>, i: int) {
    0 <= i < |order| && Usable(entries, order[i]) && forall j :: 0 <= j < i ==> !Usable(entries, order[j])
  }

  lemma {:induction false} PreferredAt(entries: map<string, string>, order: seq<string>)
    ensures match Preferred(entries, order)
      case Some(algorithm) => exists i :: FirstUsable(entries, order, i) && order[i] == algorithm
      case None => forall i :: 0 <= i < |order| ==> !Usable(entries, order[i])
    decreases |order|
  {
    if order != [] {
      var rest := order[1..];
      if Usable(entries, order[0]) {
        assert FirstUsable(entries, order, 0);
      } else {
        PreferredAt(entries, rest);
        if Preferred(entries, rest).Some? {
          var i :| FirstUsable(entries, rest, i) && rest[i] == Preferred(entries, rest).value;
          assert forall j :: 0 < j < |order| ==> order[j] == rest[j - 1];
          assert FirstUsable(entries, order, i + 1);
        }
      }
    }
  }

  lemma OnlyEntry(algorithm: string, digest: string)
    ensures Preferred(map[algorithm := digest])
      == if algorithm in PREFERENCE && digest != "" then Some(algorithm) else None
  {
    var entries := map[algorithm := digest];
    if algorithm in PREFERENCE && digest != "" {
      assert Usable(entries, algorithm);
      assert Preferred(entries).Some?;
    }
  }

  /** A name=digest value whose algorithm the printer does not know. */
  predicate NamesUnknownHash(v: string) {
    Lower(v) != "true" && Lower(v) != "false" && IsAssignment(v) && v[..Find(v, '=')] !in PREFERENCE
  }

  /** One trip through HTML settles every value but one kind: an assignment with an
      unknown algorithm, which the second trip drops. */
  lemma RenderingSettles(m: Meta)
    ensures Rendered(Rendered(m)) == Rendered(m) <==> !(m.Raw? && NamesUnknownHash(m.text))
  {
    match m {
      case Hashes(entries) => MappingRenders(entries);
      case Raw(v) =>
        if IsAssignment(v) && Lower(v) != "true" && Lower(v) != "false" {
          var algorithm, digest := v[..Find(v, '=')], v[Find(v, '=') + 1..];
          OnlyEntry(algorithm, digest);
          AssignmentIsRead(algorithm, digest);
        }
      case Flag(flag) =>
        FlagsAreRead();
      case Absent =>
    }
  }

  /** The values that HTML carries unchanged. */
  predicate Carried(m: Meta) {
    match m
    case Absent => false
    case Flag(_) => true
    case Raw(v) => Lower(v) != "true" && Lower(v) != "false" && !IsAssignment(v)
    case Hashes(entries) => exists algorithm <- PREFERENCE :: Usable(entries, algorithm) && entries == map[algorithm := entries[algorithm]]
  }

  lemma CarriedIsExact(m: Meta)
    ensures Carried(m) <==> MetadataValueToHtml(m).Some? && Rendered(m) == m
  {
    match m {
      case Hashes(entries) =>
        MappingRenders(entries);
        if Carried(m) {
          var algorithm :| algorithm in PREFERENCE && Usable(entries, algorithm) && entries == map[algorithm := entries[algorithm]];
          OnlyEntry(algorithm, entries[algorithm]);
        }
      case Flag(flag) =>
        FlagsAreRead();
      case _ =>
    }
  }

  // --------------------------------------------------------------------------- anchors

  /** An anchor as it stands in the document: its attributes and text, still escaped. */
  datatype Anchor = Anchor(
    href: string, requiresPython: Option<string>, yanked: Option<string>, dist: Option<string>, core: Option<string>, text: string)

  function EscOption(v: Option<string>): Option<string> {
    if v.Some? then Some(Esc(v.value)) else None
  }

  function UnescapeOption(v: Option<string>): Option<string> {
    if v.Some? then Some(Unescape(v.value)) else None
  }

  /** The anchor of a file whose hashes are listed in some order. */
  function PrintAnchor(f: File, items: Items): Anchor {
    var core, dist := MetadataValueToHtml(f.core), MetadataValueToHtml(f.dist);
    Anchor(
      Esc(WithFragment(f.url, items)),
      if f.requiresPython == Some("") then None else EscOption(f.requiresPython),
      match f.yanked {
        case Said(true) => Some("")
        case Because(reason) => if reason != "" then Some(Esc(reason)) else None
        case _ => None
      },
      if core.Some? then None else EscOption(dist),
      if core.Some? then EscOption(core)
      else if f.core.Absent? && f.dist.Absent? then Some("false")
      else None,
      Esc(f.filename))
  }

  /** What Python strips from a string. */
  predicate IsSpace(c: char) {
    '\t' <= c <= '\r' || '\U{1c}' <= c <= ' ' || c == '\U{85}' || c == '\U{a0}' || c == '\U{1680}'
    || '\U{2000}' <= c <= '\U{200a}' || c == '\U{2028}' || c == '\U{2029}' || c == '\U{202f}' || c == '\U{205f}' || c == '\U{3000}'
  }

  function Strip(s: string): string {
    if s == [] then []
    else if IsSpace(s[0]) then Strip(s[1..])
    else if IsSpace(s[|s| - 1]) then Strip(s[..|s| - 1])
    else s
  }

  function ReadYanked(v: Option<string>): Yanked {
    match v
    case None => Unsaid
    case Some(reason) => if reason == "" || Lower(reason) == "true" then Said(true) else Because(reason)
  }

  function ReadMeta(v: Option<string>): Meta {
    match v
    case None => Absent
    case Some(value) => NormMeta(value)
  }

  /** What the reader makes of an anchor; one without a link is skipped. */
  function ReadAnchor(a: Anchor): Option<File> {
    var href := Unescape(a.href);
    if href == "" then None
    else
      Some(File(
        Strip(Unescape(a.text)), StripFragment(href), HashesOf(href), UnescapeOption(a.requiresPython),
        ReadYanked(UnescapeOption(a.yanked)), ReadMeta(UnescapeOption(a.dist)), ReadMeta(UnescapeOption(a.core)), None, None))
  }

  predicate PrintableHashes(hashes: map<string, string>) {
    forall name <- hashes :: Printable((name, hashes[name]))
  }

  /** The files that HTML can carry: no fragment in the URL, known hashes without
      separators, a trimmed name, nothing that HTML has no place for, and exactly one
      metadata advertisement, of a form that is carried. */
  predicate Convertible(f: File) {
    && (f.url != "" || f.hashes != map[]) && '#' !in f.url
    && PrintableHashes(f.hashes)
    && Strip(f.filename) == f.filename
    && f.requiresPython != Some("")
    && f.yanked != Said(false) && (f.yanked.Because? ==> f.yanked.reason != "" && Lower(f.yanked.reason) != "true")
    && ((f.dist.Absent? && Carried(f.core)) || (f.core.Absent? && Carried(f.dist)))
    && f.size.None? && f.uploadTime.None?
  }

  lemma {:induction false} DictionaryFrom(items: Items, name: string)
    requires name in Dictionary(items)
    ensures exists i :: 0 <= i < |items| && items[i].0 == name
  {
    if items[|items| - 1].0 != name {
      DictionaryFrom(items[..|items| - 1], name);
      var i :| 0 <= i < |items| - 1 && items[..|items| - 1][i].0 == name;
      assert items[i].0 == name;
    }
  }

  lemma PrintableByName(items: Items)
    requires Distinct(items)
    ensures AllPrintable(items) <==> PrintableHashes(Dictionary(items))
  {
    var hashes := Dictionary(items);
    forall i | 0 <= i < |items|
      ensures items[i].0 in hashes && Printable(items[i]) == Printable((items[i].0, hashes[items[i].0]))
    {
      DictionaryHas(items, i);
      assert items[i] == (items[i].0, hashes[items[i].0]);
    }
    if AllPrintable(items) {
      forall name | name in hashes
        ensures Printable((name, hashes[name]))
      {
        DictionaryFrom(items, name);
        var i :| 0 <= i < |items| && items[i].0 == name;
      }
    }
  }

  lemma AdvertisementRoundTrip(f: File, items: Items)
    ensures var a := PrintAnchor(f, items);
      (ReadMeta(UnescapeOption(a.dist)) == f.dist && ReadMeta(UnescapeOption(a.core)) == f.core)
        <==> ((f.dist.Absent? && Carried(f.core)) || (f.core.Absent? && Carried(f.dist)))
  {
    CarriedIsExact(f.core);
    CarriedIsExact(f.dist);
    FalseIsRead();
    var core, dist := MetadataValueToHtml(f.core), MetadataValueToHtml(f.dist);
    if core.Some? {
      EscIsUndone(core.value);
    } else if dist.Some? {
      EscIsUndone(dist.value);
    }
    hide Esc;
    hide Unescape;
    hide NormMeta;
    hide Carried;
    hide MetadataValueToHtml;
  }

  lemma FalseIsRead()
    ensures NormMeta(Unescape("false")) == Flag(false) && !Carried(Absent) && Rendered(Absent) == Absent
  {
    UnescapePlain("false");
    FlagsAreRead();
    hide Unescape;
    hide NormMeta;
  }

  lemma YankedRoundTrip(f: File, items: Items)
    ensures ReadYanked(UnescapeOption(PrintAnchor(f, items).yanked)) == f.yanked
      <==> (f.yanked != Said(false) && (f.yanked.Because? ==> f.yanked.reason != "" && Lower(f.yanked.reason) != "true"))
  {
    if f.yanked.Because? {
      EscIsUndone(f.yanked.reason);
    }
  }

  lemma LinkRoundTrip(f: File, items: Items)
    requires Distinct(items) && Dictionary(items) == f.hashes
    ensures var href := Unescape(PrintAnchor(f, items).href);
      (href != "" && StripFragment(href) == f.url && HashesOf(href) == f.hashes)
        <==> ((f.url != "" || f.hashes != map[]) && '#' !in f.url && PrintableHashes(f.hashes))
  {
    EscIsUndone(WithFragment(f.url, items));
    FragmentRoundTrip(f.url, items);
    PrintableByName(items);
    if items != [] {
      DictionaryHas(items, 0);
    }
  }

  /** Exactly the convertible files come back from HTML as they were. */
  lemma HtmlRoundTrip(f: File, items: Items)
    requires Distinct(items) && Dictionary(items) == f.hashes
    ensures ReadAnchor(PrintAnchor(f, items)) == Some(f) <==> Convertible(f)
  {
    AdvertisementRoundTrip(f, items);
    YankedRoundTrip(f, items);
    LinkRoundTrip(f, items);
    EscIsUndone(f.filename);
    if f.requiresPython.Some? {
      EscIsUndone(f.requiresPython.value);
    }
    hide Esc;
    hide Unescape;
    hide Carried;
    hide NormMeta;
    hide MetadataValueToHtml;
    hide HashesOf;
    hide StripFragment;
    hide WithFragment;
    hide Strip;
    hide PrintableHashes;
    hide Lower;
  }
}
