/** The settings parsers: comma-separated environment values turned into
    lists and sets, with their defaults. */
module Settings {
  import Text

  /** What a `mode='before'` validator receives: nothing, a string from the
      environment, or a list already given. */
  datatype Raw = Unset | Text(text: string) | Items(items: seq<string>)

  const DefaultOrigins: seq<string> :=
    ["http://localhost:3000", "http://localhost:8080", "http://localhost:4200"]

  const DefaultMimeTypes: set<string> := {"image/jpeg", "image/png", "image/gif"}

  const DefaultMimeTypesText: string := "image/jpeg,image/png,image/gif"

  /** A piece a comma list keeps: non-empty, comma-free, with no blank at
      either end. */
  predicate Clean(p: string) {
    p != [] && !Text.IsSpace(p[0]) && !Text.IsSpace(p[|p| - 1]) && ',' !in p
  }

  /** Each piece stripped, the blank ones dropped, order kept. */
  function Kept(parts: seq<string>): (r: seq<string>)
    ensures |r| <= |parts|
    ensures forall k :: 0 <= k < |r| ==> r[k] != []
  {
    if parts == [] then []
    else
      var p := Text.Strip(parts[0]);
      if p == [] then Kept(parts[1..]) else [p] + Kept(parts[1..])
  }

  /** `[x.strip() for x in s.split(',') if x.strip()]`. */
  function CommaList(s: string): (r: seq<string>)
    ensures forall k :: 0 <= k < |r| ==> r[k] != [] && ',' !in r[k]
  {
    CleanKept(Text.Split(s, ','));
    Kept(Text.Split(s, ','))
  }

  /** Stripping and dropping never creates a comma, and what is kept is
      stripped. */
  lemma {:induction false} CleanKept(parts: seq<string>)
    requires forall k :: 0 <= k < |parts| ==> ',' !in parts[k]
    ensures forall k :: 0 <= k < |Kept(parts)| ==> Clean(Kept(parts)[k])
  {
    if parts != [] {
      var rest := parts[1..];
      assert forall k :: 0 <= k < |rest| ==> rest[k] == parts[k + 1];
      CleanKept(rest);
      var p := Text.Strip(parts[0]);
      StripInside(parts[0], ',');
      if p != [] {
        assert Clean(p);
        var r := Kept(parts);
        assert r == [p] + Kept(rest);
        forall k | 0 <= k < |r| ensures Clean(r[k]) {
          if k > 0 { assert r[k] == Kept(rest)[k - 1]; }
        }
      }
    }
  }

  /** A character absent from a string is absent from its stripped form. */
  lemma StripInside(s: string, c: char)
    requires c !in s
    ensures c !in Text.Strip(s)
  {
  }

  /** Pieces that are already clean pass through untouched. */
  lemma {:induction false} KeptClean(parts: seq<string>)
    requires forall k :: 0 <= k < |parts| ==> Clean(parts[k])
    ensures Kept(parts) == parts
  {
    if parts != [] {
      var rest := parts[1..];
      assert forall k :: 0 <= k < |rest| ==> rest[k] == parts[k + 1];
      KeptClean(rest);
      assert Clean(parts[0]);
      Text.StripUnchanged(parts[0]);
      assert Kept(parts) == [parts[0]] + Kept(rest);
      HeadTail(parts);
    }
  }

  lemma HeadTail<T>(s: seq<T>)
    requires |s| > 0
    ensures s == [s[0]] + s[1..]
  {
  }

  /** Writing a list of clean values with commas and reading it back gives
      the same list. */
  lemma CommaListRoundTrip(values: seq<string>)
    requires |values| >= 1
    requires forall k :: 0 <= k < |values| ==> Clean(values[k])
    ensures CommaList(Text.Join(values, ',')) == values
  {
    Text.SplitJoin(values, ',');
    KeptClean(values);
  }

  /** A list of nothing but commas and blanks yields no values. */
  lemma {:induction false} BlankPiecesDropped(parts: seq<string>)
    requires forall k :: 0 <= k < |parts| ==> Text.IsBlank(parts[k])
    ensures Kept(parts) == []
  {
    if parts != [] {
      Text.StripEmptyIffBlank(parts[0]);
      BlankPiecesDropped(parts[1..]);
    }
  }

  /** The shared shape of `parse_allowed_origins` and `parse_public_routes`:
      nothing or a blank string gives the default, any other string its
      comma pieces, and a list passes through. */
  function ParseCommaSetting(v: Raw, default: seq<string>): (r: seq<string>)
    ensures v.Unset? ==> r == default
    ensures v.Text? && Text.IsBlank(v.text) ==> r == default
    ensures v.Text? && !Text.IsBlank(v.text) ==> r == CommaList(v.text)
    ensures v.Items? ==> r == v.items
  {
    match v
    case Unset => default
    case Text(s) =>
      Text.StripEmptyIffBlank(s);
      if Text.Strip(s) == [] then default else CommaList(s)
    case Items(xs) => xs
  }

  /** `parse_allowed_origins`: the three local development origins by
      default. */
  function ParseAllowedOrigins(v: Raw): seq<string> {
    ParseCommaSetting(v, DefaultOrigins)
  }

  /** `parse_public_routes`: an empty default, so that a blank string and
      its comma pieces agree. */
  function ParsePublicRoutes(v: Raw): (r: seq<string>)
    ensures v.Unset? ==> r == []
    ensures v.Text? ==> r == CommaList(v.text)
    ensures v.Items? ==> r == v.items
  {
    if v.Text? && Text.IsBlank(v.text) then
      Text.StripEmptyIffBlank(v.text);
      BlankGivesNothing(v.text);
      ParseCommaSetting(v, [])
    else ParseCommaSetting(v, [])
  }

  /** A string that strips to nothing splits into blank pieces only. */
  lemma BlankGivesNothing(s: string)
    requires Text.Strip(s) == []
    ensures CommaList(s) == []
  {
    Text.StripEmptyIffBlank(s);
    var parts := Text.Split(s, ',');
    SeparatorsOnly(parts);
    BlankPiecesDropped(parts);
  }

  predicate BlankOrComma(c: char) { Text.IsSpace(c) || c == ',' }

  /** When the joined text is made of blanks and commas only, every piece
      is blank. */
  lemma {:induction false} SeparatorsOnly(parts: seq<string>)
    requires |parts| >= 1
    requires forall k :: 0 <= k < |parts| ==> ',' !in parts[k]
    requires forall i :: 0 <= i < |Text.Join(parts, ',')| ==> BlankOrComma(Text.Join(parts, ',')[i])
    ensures forall k :: 0 <= k < |parts| ==> Text.IsBlank(parts[k])
  {
    var s := Text.Join(parts, ',');
    if |parts| == 1 {
      assert s == parts[0];
    } else {
      var rest := Text.Join(parts[1..], ',');
      assert s == parts[0] + [','] + rest;
      assert forall i :: 0 <= i < |parts[0]| ==> parts[0][i] == s[i];
      assert forall i :: 0 <= i < |rest| ==> rest[i] == s[|parts[0]| + 1 + i];
      SeparatorsOnly(parts[1..]);
      assert forall k :: 1 <= k < |parts| ==> parts[k] == parts[1..][k - 1];
    }
  }

  /** A non-blank value made only of commas and blanks is not replaced by
      the defaults: it yields an empty origin list. */
  lemma CommasOnlyGiveNoOrigins()
    ensures ParseCommaSetting(Text(",,"), DefaultOrigins) == []
  {
    var s := ",,";
    var parts := Text.Split(s, ',');
    SeparatorsOnly(parts);
    BlankPiecesDropped(parts);
    assert !Text.IsBlank(s) by { assert !Text.IsSpace(s[0]); }
  }

  /** Clean values joined with commas never form a blank text. */
  lemma CleanJoinNotBlank(values: seq<string>)
    requires |values| >= 1
    requires forall k :: 0 <= k < |values| ==> Clean(values[k])
    ensures !Text.IsBlank(Text.Join(values, ','))
  {
    var s := Text.Join(values, ',');
    assert Clean(values[0]);
    assert !Text.IsSpace(values[0][0]);
    if |values| > 1 {
      assert s == values[0] + [','] + Text.Join(values[1..], ',');
    }
    assert s[0] == values[0][0];
  }

  /** The comma list written from configured values reads back as them,
      whatever the default. */
  lemma CommaSettingRoundTrip(values: seq<string>, default: seq<string>)
    requires |values| >= 1
    requires forall k :: 0 <= k < |values| ==> Clean(values[k])
    ensures ParseCommaSetting(Text(Text.Join(values, ',')), default) == values
  {
    CommaListRoundTrip(values);
    CleanJoinNotBlank(values);
  }

  /** `handle_allowed_mime_types_alias` on the dictionary of raw values:
      the old name is copied under the new one when only the old is set,
      and is removed in every case. */
  function MimeAlias(data: map<string, string>): (r: map<string, string>)
    ensures "ALLOWED_MIME_TYPES" !in r
    ensures "ALLOWED_MIME_TYPES_STR" in r <==> "ALLOWED_MIME_TYPES_STR" in data || "ALLOWED_MIME_TYPES" in data
    ensures "ALLOWED_MIME_TYPES_STR" in data ==> r["ALLOWED_MIME_TYPES_STR"] == data["ALLOWED_MIME_TYPES_STR"]
    ensures "ALLOWED_MIME_TYPES_STR" !in data && "ALLOWED_MIME_TYPES" in data ==>
      r["ALLOWED_MIME_TYPES_STR"] == data["ALLOWED_MIME_TYPES"]
    ensures forall k :: k in data && k != "ALLOWED_MIME_TYPES" && k != "ALLOWED_MIME_TYPES_STR" ==>
      k in r && r[k] == data[k]
    ensures forall k :: k in r ==> k in data || k == "ALLOWED_MIME_TYPES_STR"
  {
    var copied :=
      if "ALLOWED_MIME_TYPES" in data && "ALLOWED_MIME_TYPES_STR" !in data
      then data["ALLOWED_MIME_TYPES_STR" := data["ALLOWED_MIME_TYPES"]]
      else data;
    copied - {"ALLOWED_MIME_TYPES"}
  }

  /** Applying the alias rule twice changes nothing more. */
  lemma MimeAliasIdempotent(data: map<string, string>)
    ensures MimeAlias(MimeAlias(data)) == MimeAlias(data)
  {
  }

  /** The value a setting reads: the alias-resolved entry, or the default. */
  function MimeTypesText(data: map<string, string>): (r: string)
    ensures "ALLOWED_MIME_TYPES_STR" in data ==> r == data["ALLOWED_MIME_TYPES_STR"]
    ensures "ALLOWED_MIME_TYPES_STR" !in data && "ALLOWED_MIME_TYPES" in data ==> r == data["ALLOWED_MIME_TYPES"]
    ensures "ALLOWED_MIME_TYPES_STR" !in data && "ALLOWED_MIME_TYPES" !in data ==> r == DefaultMimeTypesText
  {
    var resolved := MimeAlias(data);
    if "ALLOWED_MIME_TYPES_STR" in resolved then resolved["ALLOWED_MIME_TYPES_STR"] else DefaultMimeTypesText
  }

  /** The `ALLOWED_MIME_TYPES` property: an empty or blank value gives the
      three image types, anything else the set of its comma pieces. */
  function AllowedMimeTypes(s: string): (r: set<string>)
    ensures Text.IsBlank(s) ==> r == DefaultMimeTypes
    ensures !Text.IsBlank(s) ==> forall m :: m in r <==> m in CommaList(s)
  {
    Text.StripEmptyIffBlank(s);
    if s == [] || Text.Strip(s) == [] then DefaultMimeTypes
    else set k | 0 <= k < |CommaList(s)| :: CommaList(s)[k]
  }

  const DefaultMimeList: seq<string> := ["image/jpeg", "image/png", "image/gif"]

  /** The default text is the default list written with commas. */
  lemma DefaultMimeTextIsJoin()
    ensures Text.Join(DefaultMimeList, ',') == DefaultMimeTypesText
  {
    var l := DefaultMimeList;
    assert Text.Join(l[2..], ',') == "image/gif";
    assert Text.Join(l[1..], ',') == "image/png,image/gif";
  }

  /** The default text reads as the default set. */
  lemma DefaultMimeTextGivesDefaultSet()
    ensures AllowedMimeTypes(DefaultMimeTypesText) == DefaultMimeTypes
  {
    DefaultMimeListClean();
    DefaultMimeTextIsJoin();
    MimeTypesRoundTrip(DefaultMimeList);
  }

  lemma DefaultMimeListClean()
    ensures forall k :: 0 <= k < |DefaultMimeList| ==> Clean(DefaultMimeList[k])
  {
    var l := DefaultMimeList;
    assert Clean(l[0]) && Clean(l[1]) && Clean(l[2]);
  }

  /** A set written out with commas reads back as that set. */
  lemma MimeTypesRoundTrip(values: seq<string>)
    requires |values| >= 1
    requires forall k :: 0 <= k < |values| ==> Clean(values[k])
    ensures forall m :: m in AllowedMimeTypes(Text.Join(values, ',')) <==> m in values
  {
    var s := Text.Join(values, ',');
    CommaListRoundTrip(values);
    CleanJoinNotBlank(values);
  }
}
