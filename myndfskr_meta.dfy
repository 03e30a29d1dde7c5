/**
 * `MyndFskrBase.sanitize_metadata`: corrections to the metadata read from
 * the first page of an agency regulation. A title that is really the
 * decision clause is dropped or cut short, en dashes in the authorisation
 * become hyphens, an identifier "DVFS 2012-4" becomes "DVFS 2012:4" and,
 * when its year or number differs from what the basefile said, the
 * metadata is derived again from the identifier; without an identifier,
 * one is inferred from the basefile.
 */
module MyndMeta {
  import opened Wrappers
  import opened PyStr
  import opened MyndBasefile
  import opened MyndIdentify

  // ------------------------------------------------------------ properties

  /** The property names the rules read or write; any other is `Other`. */
  datatype Key =
    | Title | Identifier | Bemyndigande | Arsutgava | Lopnummer
    | Type | Forfattningssamling | Konsoliderar | Issued
    | Other(name: string)

  /** The `props` dict. */
  type Props = map<Key, string>

  /**
   * What `metadata_from_basefile` needs beyond the basefile: the repository,
   * `lookup_resource` of an altLabel, `canonical_uri` of a basefile,
   * `consolidation_date`, and the URI of rpubl:KonsolideradGrundforfattning.
   */
  datatype Env = Env(agency: Agency, lookup: string -> string, canonical: string -> string,
                     issued: string, consolidatedType: string)

  /** The dict `metadata_from_basefile` returns, for the keys it sets itself. */
  function MetadataProps(md: FsMetadata, env: Env): (p: Props)
    ensures p.Keys >= {Arsutgava, Lopnummer}
    ensures p[Arsutgava] == md.arsutgava && p[Lopnummer] == md.lopnummer
    ensures Title !in p && Identifier !in p && Bemyndigande !in p
  {
    var numbers := map[Arsutgava := md.arsutgava, Lopnummer := md.lopnummer];
    var consolidated := match md.consolidates
      case Some(x) => map[Type := env.consolidatedType, Konsoliderar := env.canonical(x), Issued := env.issued]
      case None => map[];
    var collection := match md.collectionLabel
      case Some(l) => map[Forfattningssamling := env.lookup(l)]
      case None => map[];
    consolidated + collection + numbers
  }

  // ------------------------------------------------------------ the title

  /** The phrase of a decision clause mistaken for a title. */
  const Decided := "denna författning har beslutats den"

  /** The start of a decision clause that can follow the title. */
  const Cut := "beslutade den "

  /** It counts after a line break or "; ". */
  const NewlineCut := "\n" + Cut
  const SemicolonCut := "; " + Cut

  /** The title as the rules leave it; `None` when it is dropped. */
  function SanitizeTitle(title: string): Option<string>
  {
    if Contains(title, Decided) then None
    else if Contains(title, NewlineCut) || Contains(title, SemicolonCut) then
      Some(Split(title, Cut)[0])
    else Some(title)
  }

  /** A prefix of a string that does not contain `x` does not contain it either. */
  lemma PrefixNotContains(s: string, p: string, x: string)
    requires p <= s && !Contains(s, x)
    ensures !Contains(p, x)
  {
    if Contains(p, x) {
      var j := IndexOf(p, x).value;
      assert s[j..j + |x|] == p[j..j + |x|];
      ContainsAt(s, x, j);
    }
  }

  /** The first part of a split is a prefix free of the separator. */
  lemma SplitFirst(s: string, sep: string)
    requires sep != []
    ensures Split(s, sep)[0] <= s
    ensures Contains(s, sep) ==> !Contains(Split(s, sep)[0], sep)
  {
    match IndexOf(s, sep)
    case None =>
    case Some(k) =>
      NotContainedBefore(s, sep, k);
  }

  /** Cutting a title at the first `sep` that follows `a` leaves a prefix without `sep` or `d`. */
  lemma CutBefore(t: string, a: string, sep: string, d: string)
    requires sep != [] && Contains(t, a + sep) && !Contains(t, d)
    ensures Split(t, sep)[0] <= t
    ensures !Contains(Split(t, sep)[0], sep) && !Contains(Split(t, sep)[0], d)
  {
    InnerOccurrence(t, a, sep);
    SplitFirst(t, sep);
    PrefixNotContains(t, Split(t, sep)[0], d);
  }

  /**
   * The sanitised title is dropped exactly when it contains the decision
   * phrase; otherwise it is a prefix of the title without that phrase, cut
   * before "beslutade den " when it followed a line break or "; ", and the
   * whole title when neither appears.
   */
  lemma TitleSanitized(t: string)
    ensures SanitizeTitle(t).None? <==> Contains(t, Decided)
    ensures SanitizeTitle(t).Some? ==> SanitizeTitle(t).value <= t && !Contains(SanitizeTitle(t).value, Decided)
    ensures SanitizeTitle(t).Some? && (Contains(t, NewlineCut) || Contains(t, SemicolonCut)) ==>
      !Contains(SanitizeTitle(t).value, Cut)
    ensures !Contains(t, Decided) && !Contains(t, NewlineCut) && !Contains(t, SemicolonCut) ==>
      SanitizeTitle(t) == Some(t)
  {
    if !Contains(t, Decided) {
      if Contains(t, NewlineCut) {
        CutBefore(t, "\n", Cut, Decided);
      } else if Contains(t, SemicolonCut) {
        CutBefore(t, "; ", Cut, Decided);
      }
    }
  }

  /** An occurrence of `a + b` holds an occurrence of `b`. */
  lemma InnerOccurrence(t: string, a: string, b: string)
    requires Contains(t, a + b)
    ensures Contains(t, b)
  {
    var j := IndexOf(t, a + b).value;
    assert t[j + |a|..j + |a| + |b|] == (a + b)[|a|..];
    ContainsAt(t, b, j + |a|);
  }

  /** The title rule on the dict. */
  function TitleStep(props: Props): Props
  {
    if Title !in props then props
    else match SanitizeTitle(props[Title])
      case None => props - {Title}
      case Some(t) => props[Title := t]
  }

  /** The authorisation rule: every en dash becomes a hyphen. */
  function BemyndigandeStep(props: Props): Props
  {
    if Bemyndigande in props then props[Bemyndigande := Replace(props[Bemyndigande], "–", "-")] else props
  }

  /** The title and authorisation rules touch only their own keys and leave no decision phrase and no en dash. */
  lemma CleanSteps(props: Props)
    ensures Title in BemyndigandeStep(TitleStep(props)) ==> !Contains(BemyndigandeStep(TitleStep(props))[Title], Decided)
    ensures Bemyndigande in BemyndigandeStep(TitleStep(props)) ==> Free(BemyndigandeStep(TitleStep(props))[Bemyndigande], '–')
    ensures Title in props && !Contains(props[Title], Decided) ==> Title in BemyndigandeStep(TitleStep(props))
    ensures forall k :: k != Title && k != Bemyndigande ==>
      (k in props <==> k in BemyndigandeStep(TitleStep(props))) &&
      (k in props ==> BemyndigandeStep(TitleStep(props))[k] == props[k])
  {
    if Title in props {
      TitleSanitized(props[Title]);
    }
    if Bemyndigande in props {
      ReplaceByFree(props[Bemyndigande], '–', "-");
    }
  }

  // ------------------------------------------------------------ the identifier

  /** `\d{4}-\d` at the start of `s`. */
  predicate YearDashAt(s: string)
  {
    |s| >= 6 && IsDigit(s[0]) && IsDigit(s[1]) && IsDigit(s[2]) && IsDigit(s[3]) && s[4] == '-' && IsDigit(s[5])
  }

  /** `re.search("\d{4}-\d+", s)`. */
  predicate HasYearDash(s: string)
  {
    exists i :: 0 <= i <= |s| && YearDashAt(s[i..])
  }

  /**
   * `re.sub(r"(\d{4})-(\d+)", r"\1:\2", s)`: left to right, each match's
   * dash becomes a colon and the search goes on after its digits.
   */
  function DashToColon(s: string): (r: string)
    decreases |s|
  {
    if s == [] then []
    else if YearDashAt(s) then
      var k := 5 + DigitRun(s[5..]);
      s[..4] + ":" + s[5..k] + DashToColon(s[k..])
    else [s[0]] + DashToColon(s[1..])
  }

  /** Only dashes change, each into a colon. */
  lemma {:induction false} DashToColonPointwise(s: string)
    ensures |DashToColon(s)| == |s|
    ensures forall i :: 0 <= i < |s| ==> DashToColon(s)[i] == s[i] || (s[i] == '-' && DashToColon(s)[i] == ':')
    decreases |s|
  {
    if s != [] {
      if YearDashAt(s) {
        var k := 5 + DigitRun(s[5..]);
        DashToColonPointwise(s[k..]);
        var head := s[..4] + ":" + s[5..k];
        assert |head| == k;
        forall i | 0 <= i < |s| ensures DashToColon(s)[i] == s[i] || (s[i] == '-' && DashToColon(s)[i] == ':') {
          if i >= k {
            assert DashToColon(s)[i] == DashToColon(s[k..])[i - k];
          } else if i > 4 {
            assert DashToColon(s)[i] == s[5..k][i - 5];
          }
        }
      } else {
        DashToColonPointwise(s[1..]);
        forall i | 0 < i < |s| ensures DashToColon(s)[i] == DashToColon(s[1..])[i - 1] {
        }
      }
    }
  }

  /** Without a match, the substitution changes nothing: the `re.search` guard is only a shortcut. */
  lemma {:induction false} DashToColonNoMatch(s: string)
    requires !HasYearDash(s)
    ensures DashToColon(s) == s
    decreases |s|
  {
    if s != [] {
      assert s[0..] == s;
      assert !HasYearDash(s[1..]) by {
        forall i | 0 <= i <= |s[1..]| ensures !YearDashAt(s[1..][i..]) {
          assert s[1..][i..] == s[i + 1..];
        }
      }
      DashToColonNoMatch(s[1..]);
    }
  }

  /** A string without '-' has no match. */
  lemma NoDashNoMatch(s: string)
    requires Free(s, '-')
    ensures !HasYearDash(s)
  {
    forall i | 0 <= i <= |s| ensures !YearDashAt(s[i..]) {
      if |s[i..]| >= 6 {
        assert s[i..][4] == s[i + 4];
      }
    }
  }

  /** Characters that are not digits pass through unchanged. */
  lemma {:induction false} DashToColonSkip(p: string, rest: string)
    requires forall i :: 0 <= i < |p| ==> !IsDigit(p[i])
    ensures DashToColon(p + rest) == p + DashToColon(rest)
    decreases |p|
  {
    if p != [] {
      var s := p + rest;
      assert s[0] == p[0] && s[1..] == p[1..] + rest;
      assert !YearDashAt(s);
      DashToColonSkip(p[1..], rest);
      assert DashToColon(s) == [p[0]] + (p[1..] + DashToColon(rest));
      assert [p[0]] + p[1..] == p;
    } else {
      assert p + rest == rest;
    }
  }

  /** "yyyy-n" becomes "yyyy:n". */
  lemma DashToColonNumber(y: string, n: string)
    requires |y| == 4 && IsDigits(y) && IsDigits(n)
    ensures DashToColon(y + "-" + n) == y + ":" + n
  {
    var s := y + "-" + n;
    assert YearDashAt(s) by {
      assert s[4] == '-' && s[5] == n[0];
    }
    assert s[5..] == n + [];
    DigitRunAll(n, []);
    assert s[..4] == y && s[5..5 + |n|] == n && s[5 + |n|..] == [];
  }

  /** "DVFS 2012-4" becomes "DVFS 2012:4": a collection without digits, a space and year-number. */
  lemma DashIdentifier(fs: string, y: string, n: string)
    requires forall i :: 0 <= i < |fs| ==> !IsDigit(fs[i])
    requires |y| == 4 && IsDigits(y) && IsDigits(n)
    ensures DashToColon(fs + " " + (y + "-" + n)) == fs + " " + (y + ":" + n)
  {
    DashToColonSkip(fs + " ", y + "-" + n);
    DashToColonNumber(y, n);
  }

  /** The two splitting classes of the rules: `[ :]` and `[/:_]`. */
  predicate SpaceOrColon(c: char) { c == ' ' || c == ':' }

  predicate SlashColonUnderscore(c: char) { c == '/' || c == ':' || c == '_' }

  /** Index of the first character of the class. */
  function FindAny(s: string, cls: char -> bool): (r: Option<nat>)
    ensures r.Some? ==> r.value < |s| && cls(s[r.value])
    ensures r.Some? ==> forall j :: 0 <= j < r.value ==> !cls(s[j])
    ensures r.None? ==> forall j :: 0 <= j < |s| ==> !cls(s[j])
    decreases |s|
  {
    if s == [] then None
    else if cls(s[0]) then Some(0)
    else match FindAny(s[1..], cls)
      case None => None
      case Some(k) => Some(k + 1)
  }

  /** `re.split` on a one-character class. */
  function SplitAny(s: string, cls: char -> bool): (r: seq<string>)
    ensures |r| >= 1
    decreases |s|
  {
    match FindAny(s, cls)
    case None => [s]
    case Some(k) => [s[..k]] + SplitAny(s[k + 1..], cls)
  }

  /** No character of the class: no split. */
  lemma SplitAnyNone(s: string, cls: char -> bool)
    requires forall i :: 0 <= i < |s| ==> !cls(s[i])
    ensures SplitAny(s, cls) == [s]
  {
    assert FindAny(s, cls).None?;
  }

  /** Splitting at the first character of the class, when it follows `a`. */
  lemma SplitAnyCons(a: string, c: char, rest: string, cls: char -> bool)
    requires forall i :: 0 <= i < |a| ==> !cls(a[i])
    requires cls(c)
    ensures SplitAny(a + [c] + rest, cls) == [a] + SplitAny(rest, cls)
  {
    var s := a + [c] + rest;
    assert FindAny(s, cls) == Some(|a|) by {
      FindAnyAt(s, cls, |a|);
    }
    assert s[..|a|] == a && s[|a| + 1..] == rest;
  }

  /** The first character of the class, once it is known where it is. */
  lemma {:induction false} FindAnyAt(s: string, cls: char -> bool, k: nat)
    requires k < |s| && cls(s[k]) && forall j :: 0 <= j < k ==> !cls(s[j])
    ensures FindAny(s, cls) == Some(k)
    decreases k
  {
    if k > 0 {
      FindAnyAt(s[1..], cls, k - 1);
    }
  }

  /** Three parts and two separators of the class split into those parts. */
  lemma SplitAnyThree(a: string, c1: char, b: string, c2: char, n: string, cls: char -> bool)
    requires cls(c1) && cls(c2)
    requires forall i :: 0 <= i < |a| ==> !cls(a[i])
    requires forall i :: 0 <= i < |b| ==> !cls(b[i])
    requires forall i :: 0 <= i < |n| ==> !cls(n[i])
    ensures SplitAny(a + [c1] + b + [c2] + n, cls) == [a, b, n]
  {
    SplitAnyNone(n, cls);
    SplitAnyCons(b, c2, n, cls);
    assert a + [c1] + b + [c2] + n == a + [c1] + (b + [c2] + n);
    SplitAnyCons(a, c1, b + [c2] + n, cls);
  }

  /** The metadata derived again from the identifier, merged into the dict; `None` for an exception. */
  function Rederive(props: Props, id: string, env: Env): Option<Props>
    requires ValidAgency(env.agency)
  {
    match SanitizeFor(env.agency, id)
    case None => None
    case Some(rb) =>
      match MetadataFromBasefile(rb)
      case None => None
      case Some(md) => Some(props + MetadataProps(md, env))
  }

  /**
   * The identifier is split on space and colon; if its year or number
   * differs from the dict's, the metadata is derived again. `None` for the
   * `ValueError` of other than three parts, the `KeyError` of a missing
   * year or number, and the exceptions of the re-derivation.
   */
  function CheckIdentifier(props: Props, id: string, env: Env): Option<Props>
    requires ValidAgency(env.agency)
  {
    var parts := SplitAny(id, SpaceOrColon);
    if |parts| != 3 then None
    else if Arsutgava !in props then None
    else if parts[1] != props[Arsutgava] then Rederive(props, id, env)
    else if Lopnummer !in props then None
    else if parts[2] != props[Lopnummer] then Rederive(props, id, env)
    else Some(props)
  }

  /** The rules for a dict with an identifier. */
  function IdentifierStep(props: Props, konsolidering: bool, env: Env): Option<Props>
    requires Identifier in props && ValidAgency(env.agency)
  {
    var given := props[Identifier];
    var id := if HasYearDash(given) then DashToColon(given) else given;
    var p := props[Identifier := id];
    if konsolidering then Some(p) else CheckIdentifier(p, id, env)
  }

  /** The mark of an identifier inferred for a consolidated version. */
  const Marked := " (konsoliderad)"

  /** The identifier inferred from the basefile; `None` for the `ValueError` of other than three parts. */
  function InferIdentifier(basefile: string, konsolidering: bool): Option<string>
  {
    var all := SplitAny(Upper(basefile), SlashColonUnderscore);
    var parts := if konsolidering then all[1..] else all;
    if |parts| != 3 then None
    else Some(AltLabel(parts[0]) + " " + parts[1] + ":" + parts[2] + (if konsolidering then Marked else ""))
  }

  // ------------------------------------------------------------ sanitize_metadata

  /** `props.get("rdf:type", "").endswith("#KonsolideradGrundforfattning")`. */
  predicate Consolidated(props: Props)
  {
    Type in props && EndsWith(props[Type], "#KonsolideradGrundforfattning")
  }

  /** The last rule as written: a title found in the document entry is stored as the identifier. */
  function TitleFromEntryAsWritten(props: Props, entryTitle: string): Props
  {
    if Title !in props && entryTitle != "" then props[Identifier := entryTitle] else props
  }

  /** The last rule as its comment intends: a title found in the document entry is stored as the title. */
  function TitleFromEntry(props: Props, entryTitle: string): Props
  {
    if Title !in props && entryTitle != "" then props[Title := entryTitle] else props
  }

  /**
   * `sanitize_metadata(props, basefile)`, with the title of the document
   * entry (empty when it has none) as `entryTitle`; `None` for an exception.
   */
  function SanitizeMetadata(props: Props, basefile: string, entryTitle: string, env: Env): Option<Props>
    requires ValidAgency(env.agency)
  {
    var konsolidering := Consolidated(props);
    var p := BemyndigandeStep(TitleStep(props));
    var q := if Identifier in p then IdentifierStep(p, konsolidering, env)
             else match InferIdentifier(basefile, konsolidering)
               case None => None
               case Some(id) => Some(p[Identifier := id]);
    match q
    case None => None
    case Some(r) => Some(TitleFromEntry(r, entryTitle))
  }

  // ------------------------------------------------------------ properties

  /** As written, the entry's title replaces the identifier the earlier rules settled, and no title is set. */
  lemma EntryTitleClobbersIdentifier(props: Props, entryTitle: string)
    requires Identifier in props && Title !in props && entryTitle != "" && entryTitle != props[Identifier]
    ensures TitleFromEntryAsWritten(props, entryTitle)[Identifier] != props[Identifier]
    ensures Title !in TitleFromEntryAsWritten(props, entryTitle)
  {
  }

  /** As intended, the entry's title fills a missing title and the identifier is kept. */
  lemma EntryTitleFillsTitle(props: Props, entryTitle: string)
    ensures Identifier in props ==>
      Identifier in TitleFromEntry(props, entryTitle) && TitleFromEntry(props, entryTitle)[Identifier] == props[Identifier]
    ensures Title in props ==> TitleFromEntry(props, entryTitle) == props
    ensures Title !in props && entryTitle != "" ==> TitleFromEntry(props, entryTitle)[Title] == entryTitle
  {
  }

  /** Whatever the rules return has an identifier. */
  lemma SanitizedHasIdentifier(props: Props, basefile: string, entryTitle: string, env: Env)
    requires ValidAgency(env.agency)
    requires SanitizeMetadata(props, basefile, entryTitle, env).Some?
    ensures Identifier in SanitizeMetadata(props, basefile, entryTitle, env).value
  {
    var p := BemyndigandeStep(TitleStep(props));
    if Identifier in p {
      var konsolidering := Consolidated(props);
      var r := IdentifierStep(p, konsolidering, env).value;
      if !konsolidering {
        var id := if HasYearDash(p[Identifier]) then DashToColon(p[Identifier]) else p[Identifier];
        RederiveKeeps(p[Identifier := id], id, env);
      }
    }
  }

  /** Re-deriving leaves the identifier, title and authorisation alone. */
  lemma RederiveKeeps(props: Props, id: string, env: Env)
    requires ValidAgency(env.agency)
    ensures CheckIdentifier(props, id, env).Some? ==>
      forall k :: k in {Identifier, Title, Bemyndigande} ==>
        (k in CheckIdentifier(props, id, env).value <==> k in props) &&
        (k in props ==> CheckIdentifier(props, id, env).value[k] == props[k])
  {
  }

  /** An identifier whose year and number agree with the dict changes nothing. */
  lemma IdentifierAgrees(props: Props, fs: string, y: string, n: string, env: Env)
    requires ValidAgency(env.agency)
    requires Free(fs, ' ') && Free(fs, ':') && Free(y, ' ') && Free(y, ':') && Free(n, ' ') && Free(n, ':')
    requires Free(fs, '-') && Free(y, '-') && Free(n, '-')
    requires Identifier in props && props[Identifier] == fs + " " + y + ":" + n
    requires Arsutgava in props && props[Arsutgava] == y && Lopnummer in props && props[Lopnummer] == n
    ensures IdentifierStep(props, false, env) == Some(props)
  {
    var id := fs + " " + y + ":" + n;
    IdentifierFree(fs, y, n);
    NoDashNoMatch(id);
    assert props[Identifier := id] == props;
    IdentifierParts(fs, y, n);
  }

  /** "fs y:n" has no '-' when its parts have none. */
  lemma IdentifierFree(fs: string, y: string, n: string)
    requires Free(fs, '-') && Free(y, '-') && Free(n, '-')
    ensures Free(fs + " " + y + ":" + n, '-')
  {
  }

  /** "fs y:n" splits on space and colon into its three parts. */
  lemma IdentifierParts(fs: string, y: string, n: string)
    requires Free(fs, ' ') && Free(fs, ':') && Free(y, ' ') && Free(y, ':') && Free(n, ' ') && Free(n, ':')
    ensures SplitAny(fs + " " + y + ":" + n, SpaceOrColon) == [fs, y, n]
  {
    assert fs + " " + y + ":" + n == fs + [' '] + y + [':'] + n;
    SplitAnyThree(fs, ' ', y, ':', n, SpaceOrColon);
  }

  /** An identifier whose year differs from the dict's: the year and number of its sanitised basefile win. */
  lemma IdentifierRederived(props: Props, id: string, c: string, y: string, n: string, env: Env)
    requires ValidAgency(env.agency)
    requires NoSep(c) && NoSep(y) && NoSep(n)
    requires SanitizeFor(env.agency, id) == Some(c + "/" + y + ":" + n)
    requires |SplitAny(id, SpaceOrColon)| == 3 && Arsutgava in props && SplitAny(id, SpaceOrColon)[1] != props[Arsutgava]
    ensures CheckIdentifier(props, id, env).Some?
    ensures CheckIdentifier(props, id, env).value[Arsutgava] == y
    ensures CheckIdentifier(props, id, env).value[Lopnummer] == n
  {
    MetadataOfBasefile(c, y, n);
  }

  /** "c/y:n" in upper case splits on `[/:_]` into its three parts. */
  lemma BasefileParts(c: string, y: string, n: string)
    requires NoSep(c) && NoSep(y) && NoSep(n)
    ensures SplitAny(Upper(c + "/" + y + ":" + n), SlashColonUnderscore) == [Upper(c), Upper(y), Upper(n)]
  {
    var b := c + "/" + y + ":" + n;
    assert Upper(b) == Upper(c) + ['/'] + Upper(y) + [':'] + Upper(n) by {
      UpperAppend(c + "/" + y + ":", n);
      UpperAppend(c + "/" + y, ":");
      UpperAppend(c + "/", y);
      UpperAppend(c, "/");
    }
    UpperNoSep(c);
    UpperNoSep(y);
    UpperNoSep(n);
    SplitAnyThree(Upper(c), '/', Upper(y), ':', Upper(n), SlashColonUnderscore);
  }

  /** Upper-casing keeps a string free of separators. */
  lemma UpperNoSep(s: string)
    requires NoSep(s)
    ensures forall i :: 0 <= i < |Upper(s)| ==> !SlashColonUnderscore(Upper(s)[i])
  {
    forall i | 0 <= i < |Upper(s)| ensures !SlashColonUnderscore(Upper(s)[i]) {
      assert !IsSep(s[i]);
    }
  }

  /** Without an identifier, "c/y:n" gives the collection's altLabel, a space and "Y:N". */
  lemma InferredIdentifier(c: string, y: string, n: string)
    requires NoSep(c) && NoSep(y) && NoSep(n)
    ensures InferIdentifier(c + "/" + y + ":" + n, false) == Some(AltLabel(Upper(c)) + " " + Upper(y) + ":" + Upper(n))
  {
    BasefileParts(c, y, n);
    var id := AltLabel(Upper(c)) + " " + Upper(y) + ":" + Upper(n);
    assert id + "" == id;
  }

  /**
   * A consolidated basefile "konsolidering/c/y:n" gives the same identifier
   * marked " (konsoliderad)"; the first segment is dropped whatever it says.
   */
  lemma InferredConsolidated(k: string, c: string, y: string, n: string)
    requires NoSep(k) && NoSep(c) && NoSep(y) && NoSep(n)
    ensures InferIdentifier(k + "/" + (c + "/" + y + ":" + n), true)
      == Some(AltLabel(Upper(c)) + " " + Upper(y) + ":" + Upper(n) + Marked)
  {
    var rest := c + "/" + y + ":" + n;
    assert Upper(k + "/" + rest) == Upper(k) + ['/'] + Upper(rest) by {
      UpperAppend(k + "/", rest);
      UpperAppend(k, "/");
    }
    UpperNoSep(k);
    SplitAnyCons(Upper(k), '/', Upper(rest), SlashColonUnderscore);
    BasefileParts(c, y, n);
    assert ([Upper(k)] + [Upper(c), Upper(y), Upper(n)])[1..] == [Upper(c), Upper(y), Upper(n)];
  }
}
