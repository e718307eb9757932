/** The per-path metadata extractor (estrazione_Path_Tag.py:64-158): from the
    name of an object in the storage bucket it derives the record
    `Source_title`, `Path`, `Numero_commessa`, `Luogo`, `Autore`,
    `Titolo_opera`, `Anno_inizio_restauro`, `Tipo_file`.

    Each field is a pure function of the name; the three loops of the source
    (the record list, the folder-base scan and the author scan) are methods
    proved to compute those functions. */
module Extractor {
  import opened Wrappers
  import opened Text
  import opened Patterns
  import opened Tables

  /** The named-entity recogniser, injected: whether the entities of a single
      token include a person, and how many person entities a text holds
      (every occurrence counts, not only distinct names). */
  datatype Recogniser = Recogniser(isPersonToken: string -> bool, personCount: string -> nat)

  /** A base folder taken apart into project code, location and remainder. */
  datatype Folder = Folder(commessa: Option<string>, luogo: Option<string>, restRaw: string)

  /** One output row. */
  datatype Record = Record(
    sourceTitle: string,
    path: string,
    numeroCommessa: Option<string>,
    luogo: Option<string>,
    autore: Option<string>,
    titoloOpera: Option<string>,
    annoInizioRestauro: Option<string>,
    tipoFile: string)

  // ---------------------------------------------------------------------
  // Path segments (lines 73-74)

  /** `full_path.split('/')`. */
  function Segments(fullPath: string): (parts: seq<string>)
    ensures |parts| >= 1
    ensures forall i :: 0 <= i < |parts| ==> NoneIn(parts[i], {'/'})
    ensures Join(parts, "/") == fullPath
  {
    JoinSplit(fullPath, '/', -1);
    assert ['/'] == "/";
    SplitPieces(fullPath, {'/'});
    SplitOn(fullPath, {'/'}, -1)
  }

  /** `parts[-1]`: the text after the last `/` of the name, or the whole name. */
  function FileName(fullPath: string): (name: string)
    ensures NoneIn(name, {'/'})
    ensures |name| <= |fullPath|
    ensures name == fullPath[|fullPath| - |name|..]
    ensures |name| < |fullPath| ==> fullPath[|fullPath| - |name| - 1] == '/'
  {
    var parts := Segments(fullPath);
    var name := parts[|parts| - 1];
    var front := Join(parts[..|parts| - 1], "/");
    assert |parts| > 1 ==> fullPath == front + "/" + name by {
      if |parts| > 1 {
        assert parts == parts[..|parts| - 1] + [name];
        JoinAppend(parts[..|parts| - 1], [name], "/");
      }
    }
    assert |parts| > 1 ==> fullPath[..|fullPath| - |name|] == front + "/";
    name
  }

  // ---------------------------------------------------------------------
  // Base folder (lines 64-68)

  /** The base folder: the first segment other than the last one that matches
      `folder_pattern`, or the first segment when none does. */
  function FolderBase(parts: seq<string>): (folder: string)
    requires |parts| >= 1
    ensures folder in parts
  {
    var front := parts[..|parts| - 1];
    var k := FirstIndex(front, FolderScan);
    if k < |front| then front[k] else parts[0]
  }

  /** The base folder is the first segment before the file name that
      matches `folder_pattern`. */
  lemma FolderBaseFirst(parts: seq<string>, i: nat)
    requires i < |parts| - 1 && MatchesFolderPattern(parts[i])
    requires forall j :: 0 <= j < i ==> !MatchesFolderPattern(parts[j])
    ensures FolderBase(parts) == parts[i]
  {
    var front := parts[..|parts| - 1];
    var k := FirstIndex(front, FolderScan);
    assert front[i] == parts[i];
    FolderScanIff(parts[i]);
    if k < i {
      assert front[k] == parts[k];
      FolderScanIff(parts[k]);
      assert false;
    }
    assert k == i;
  }

  /** When no segment before the file name matches, the base folder is the
      first segment. */
  lemma FolderBaseDefault(parts: seq<string>)
    requires |parts| >= 1
    requires forall j :: 0 <= j < |parts| - 1 ==> !MatchesFolderPattern(parts[j])
    ensures FolderBase(parts) == parts[0]
  {
    var front := parts[..|parts| - 1];
    var k := FirstIndex(front, FolderScan);
    if k < |front| {
      FolderScanIff(front[k]);
      assert false;
    }
  }

  /** `detect_folder_base`: a scan with an early return. */
  method DetectFolderBase(parts: seq<string>) returns (folder: string)
    requires |parts| >= 1
    ensures folder == FolderBase(parts)
  {
    var i := 0;
    while i < |parts| - 1
      invariant 0 <= i <= |parts| - 1
      invariant forall j :: 0 <= j < i ==> !FolderScan(parts[j])
    {
      if FolderScan(parts[i]) {
        return parts[i];
      }
      i := i + 1;
    }
    return parts[0];
  }

  // ---------------------------------------------------------------------
  // Project code, location and remainder (lines 78-87)

  /** With an underscore: `folder.split('_', 2)`. Without: `folder.split('-')`,
      the first three tokens rejoined as the code, the fourth as the
      location and the rest rejoined as the remainder. */
  function Decompose(folder: string): (d: Folder)
    ensures d.luogo.Some? ==> d.commessa.Some?
    ensures d.restRaw != "" ==> d.luogo.Some?
  {
    if '_' in folder then UnderscoreFolder(SplitOn(folder, {'_'}, 2))
    else DashFolder(SplitOn(folder, {'-'}, -1))
  }

  /** The fields of an underscore folder from its (at most three) pieces. */
  function UnderscoreFolder(f: seq<string>): Folder
    requires |f| >= 1
  {
    Folder(Some(f[0]), if |f| > 1 then Some(f[1]) else None, if |f| > 2 then f[2] else "")
  }

  /** The fields of a dash folder from its dash-separated tokens. */
  function DashFolder(t: seq<string>): Folder
  {
    Folder(if |t| >= 3 then Some(Join(t[..3], "-")) else None,
           if |t| > 3 then Some(t[3]) else None,
           if |t| > 4 then Join(t[4..], "-") else "")
  }

  /** With an underscore, the folder is cut at its first two underscores:
      code and location are always there and hold no underscore, and the
      remainder is the text after the second underscore, or empty when
      there is only one. */
  lemma DecomposeUnderscore(folder: string)
    requires '_' in folder
    ensures var d := Decompose(folder);
      && d.commessa.Some? && d.luogo.Some?
      && NoneIn(d.commessa.value, {'_'}) && NoneIn(d.luogo.value, {'_'})
      && (|| folder == d.commessa.value + "_" + d.luogo.value + "_" + d.restRaw
          || (d.restRaw == "" && folder == d.commessa.value + "_" + d.luogo.value))
  {
    var f := SplitOn(folder, {'_'}, 2);
    JoinSplit(folder, '_', 2);
    assert ['_'] == "_";
    assert !NoneIn(folder, {'_'});
    UnderscorePieces(f);
  }

  /** Two or three pieces joined by underscores. */
  lemma UnderscorePieces(f: seq<string>)
    requires 2 <= |f| <= 3
    ensures |f| == 2 ==> Join(f, "_") == f[0] + "_" + f[1]
    ensures |f| == 3 ==> Join(f, "_") == f[0] + "_" + f[1] + "_" + f[2]
  {
    assert f[1..][1..] == f[2..];
  }

  /** Without an underscore, the shape is decided by the number of dashes:
      fewer than two give no code; two give the code alone; three add a
      location; four or more add a remainder. The code always holds exactly
      two dashes and the location none. */
  lemma DecomposeDash(folder: string)
    requires '_' !in folder
    ensures var d := Decompose(folder); var n := CountChar(folder, '-');
      && (n < 2 ==> d.commessa.None? && d.luogo.None? && d.restRaw == "")
      && (n >= 2 ==> d.commessa.Some? && CountChar(d.commessa.value, '-') == 2)
      && (n == 2 ==> folder == d.commessa.value && d.luogo.None? && d.restRaw == "")
      && (n == 3 ==> (d.luogo.Some? && NoneIn(d.luogo.value, {'-'}) && d.restRaw == ""
                      && folder == d.commessa.value + "-" + d.luogo.value))
      && (n >= 4 ==> (d.luogo.Some? && NoneIn(d.luogo.value, {'-'})
                      && folder == d.commessa.value + "-" + d.luogo.value + "-" + d.restRaw))
  {
    var t := SplitOn(folder, {'-'}, -1);
    assert folder == Join(t, "-") by {
      JoinSplit(folder, '-', -1);
      assert ['-'] == "-";
    }
    assert |t| == CountChar(folder, '-') + 1 by { SplitLength(folder, '-'); }
    SplitPieces(folder, {'-'});
    DashShape(folder, t, CountChar(folder, '-'));
    assert Decompose(folder) == DashFolder(t);
  }

  /** `DashFolder` on the dash-free tokens of a folder, by their number. */
  lemma DashShape(folder: string, t: seq<string>, n: nat)
    requires folder == Join(t, "-") && |t| == n + 1
    requires forall i :: 0 <= i < |t| ==> NoneIn(t[i], {'-'})
    ensures var d := DashFolder(t);
      && (n < 2 ==> d.commessa.None? && d.luogo.None? && d.restRaw == "")
      && (n >= 2 ==> d.commessa.Some? && CountChar(d.commessa.value, '-') == 2)
      && (n == 2 ==> folder == d.commessa.value && d.luogo.None? && d.restRaw == "")
      && (n == 3 ==> (d.luogo.Some? && NoneIn(d.luogo.value, {'-'}) && d.restRaw == ""
                      && folder == d.commessa.value + "-" + d.luogo.value))
      && (n >= 4 ==> (d.luogo.Some? && NoneIn(d.luogo.value, {'-'})
                      && folder == d.commessa.value + "-" + d.luogo.value + "-" + d.restRaw))
  {
    if |t| >= 3 {
      DashCode(t);
      if |t| == 3 {
        assert t[..3] == t;
      } else if |t| == 4 {
        DashJoinLocation(t);
      } else {
        DashJoinRest(t);
      }
    }
  }

  /** The first three dash-free tokens joined hold exactly two dashes. */
  lemma DashCode(t: seq<string>)
    requires |t| >= 3 && forall i :: 0 <= i < |t| ==> NoneIn(t[i], {'-'})
    ensures CountChar(Join(t[..3], "-"), '-') == 2
  {
    assert forall i :: 0 <= i < 3 ==> t[..3][i] == t[i];
    CountJoin(t[..3], '-');
  }

  /** Four tokens: the first three joined, a dash, the fourth. */
  lemma DashJoinLocation(t: seq<string>)
    requires |t| == 4
    ensures Join(t, "-") == Join(t[..3], "-") + "-" + t[3]
  {
    JoinAt(t, 3, "-");
    assert t[3..] == [t[3]];
  }

  /** Five or more tokens: the first three joined, the fourth, and the rest
      joined, with dashes between. */
  lemma DashJoinRest(t: seq<string>)
    requires |t| >= 5
    ensures Join(t, "-") == Join(t[..3], "-") + "-" + t[3] + "-" + Join(t[4..], "-")
  {
    JoinAt(t, 3, "-");
    JoinFrom(t, 3, "-");
    var x := Join(t[..3], "-") + "-";
    Assoc(x, t[3] + "-", Join(t[4..], "-"));
    Assoc(x, t[3], "-");
  }

  // ---------------------------------------------------------------------
  // Year (lines 90-93)

  /** The start year: the four digits that end the code (or precede its
      final newline), `None` when there are none. */
  function Anno(commessa: Option<string>): (anno: Option<string>)
    ensures anno.Some? ==>
      commessa.Some? && |anno.value| == 4 && AllDigits(anno.value) &&
      exists i: nat :: YearAt(commessa.value, i) && anno.value == commessa.value[i..i + 4]
    ensures anno.None? <==> commessa.None? || forall i: nat :: !YearAt(commessa.value, i)
  {
    match commessa
    case None => None
    case Some(c) => YearAtEnd(c)
  }

  // ---------------------------------------------------------------------
  // Author (lines 96-114)

  /** `re.split('[-_]', rest_raw)`. */
  function Tokens(restRaw: string): (tokens: seq<string>)
    ensures |tokens| >= 1
    ensures forall i :: 0 <= i < |tokens| ==> NoneIn(tokens[i], {'-', '_'})
    ensures |tokens| == 1 <==> NoneIn(restRaw, {'-', '_'})
    ensures Join(tokens, "-") == ReplaceChar(restRaw, '_', '-')
  {
    SplitPieces(restRaw, {'-', '_'});
    JoinSplitTwo(restRaw, '-', '_');
    assert ['-'] == "-";
    SplitOn(restRaw, {'-', '_'}, -1)
  }

  /** The text given to the recogniser as a whole: dashes and underscores
      replaced by blanks. */
  function Blanked(s: string): (r: string)
    ensures |r| == |s| && NoneIn(r, {'-', '_'})
    ensures forall i :: 0 <= i < |s| ==> r[i] == if s[i] == '-' || s[i] == '_' then ' ' else s[i]
  {
    ReplaceChar(ReplaceChar(s, '-', ' '), '_', ' ')
  }

  /** A token the author loop accepts: non-empty, not blacklisted and
      recognised as a person. */
  predicate IsPersonCandidate(tok: string, ner: Recogniser)
  {
    tok != "" && tok !in TitleBlacklist && ner.isPersonToken(tok)
  }

  /** The index of the first token the author loop accepts, or `|tokens|`. */
  function FirstPersonToken(tokens: seq<string>, ner: Recogniser): (k: nat)
    ensures k <= |tokens|
    ensures forall j :: 0 <= j < k ==> !IsPersonCandidate(tokens[j], ner)
    ensures k < |tokens| ==> IsPersonCandidate(tokens[k], ner)
  {
    FirstIndex(tokens, t => IsPersonCandidate(t, ner))
  }

  /** The author rules as the source applies them, one after the other:
      the first accepted token; then `anonimo` whenever the whole text holds
      more than one person, overriding a token match; then `anonimo` when
      nothing matched and there are several tokens. */
  function Author(restRaw: string, ner: Recogniser): (autore: Option<string>)
    ensures autore.Some? ==> restRaw != ""
    ensures autore.Some? && autore.value != Anonimo ==> IsPersonCandidate(autore.value, ner)
  {
    if restRaw == "" then None
    else
      var tokens := Tokens(restRaw);
      var k := FirstPersonToken(tokens, ner);
      if ner.personCount(Blanked(restRaw)) > 1 then Some(Anonimo)
      else if k < |tokens| then Some(tokens[k])
      else if |tokens| > 1 then Some(Anonimo)
      else None
  }

  /** The four author rules: an empty remainder has no author; several
      persons in the whole text give `anonimo`; several tokens none of which
      is accepted give `anonimo`; and a real author is the first accepted
      token, so never an empty or blacklisted one. */
  lemma AuthorRules(restRaw: string, ner: Recogniser)
    ensures restRaw == "" ==> Author(restRaw, ner).None?
    ensures restRaw != "" && ner.personCount(Blanked(restRaw)) > 1 ==> Author(restRaw, ner) == Some(Anonimo)
    ensures restRaw != "" && |Tokens(restRaw)| > 1
            && (forall i :: 0 <= i < |Tokens(restRaw)| ==> !IsPersonCandidate(Tokens(restRaw)[i], ner))
            ==> Author(restRaw, ner) == Some(Anonimo)
    ensures Author(restRaw, ner).Some? && Author(restRaw, ner).value != Anonimo ==>
      var tokens := Tokens(restRaw);
      var autore := Author(restRaw, ner).value;
      && autore != "" && autore !in TitleBlacklist
      && exists i :: 0 <= i < |tokens| && tokens[i] == autore && IsPersonCandidate(tokens[i], ner)
                     && forall j :: 0 <= j < i ==> !IsPersonCandidate(tokens[j], ner)
  {
  }

  /** No author is found exactly when the remainder is empty, or when it is a
      single word (no dash, no underscore) that the recogniser rejects and
      the whole text does not hold several persons. */
  lemma AuthorNone(restRaw: string, ner: Recogniser)
    ensures Author(restRaw, ner).None? <==>
      || restRaw == ""
      || (&& ner.personCount(Blanked(restRaw)) <= 1
          && NoneIn(restRaw, {'-', '_'})
          && !IsPersonCandidate(restRaw, ner))
  {
    if restRaw != "" && NoneIn(restRaw, {'-', '_'}) {
      assert Tokens(restRaw) == [restRaw];
    }
  }

  /** A token match survives exactly when the whole text holds at most one
      person. */
  lemma AuthorIsFirstToken(restRaw: string, ner: Recogniser, i: nat)
    requires restRaw != "" && i < |Tokens(restRaw)|
    requires IsPersonCandidate(Tokens(restRaw)[i], ner)
    requires forall j :: 0 <= j < i ==> !IsPersonCandidate(Tokens(restRaw)[j], ner)
    ensures ner.personCount(Blanked(restRaw)) <= 1 ==> Author(restRaw, ner) == Some(Tokens(restRaw)[i])
    ensures ner.personCount(Blanked(restRaw)) > 1 ==> Author(restRaw, ner) == Some(Anonimo)
  {
    var k := FirstPersonToken(Tokens(restRaw), ner);
    assert k == i;
  }

  /** Lines 96-121: the author loop with its `break`, the two `anonimo`
      overrides and the title, each local reassigned as in the source. */
  method ResolveAuthor(restRaw: string, ner: Recogniser) returns (autore: Option<string>, titolo: Option<string>)
    ensures autore == Author(restRaw, ner)
    ensures titolo == Title(restRaw, autore)
  {
    autore := None;
    titolo := None;
    if restRaw != "" {
      var tokens := Tokens(restRaw);
      var i := 0;
      while i < |tokens|
        invariant 0 <= i <= |tokens|
        invariant autore.None?
        invariant forall j :: 0 <= j < i ==> !IsPersonCandidate(tokens[j], ner)
      {
        var tok := tokens[i];
        if tok != "" && tok !in TitleBlacklist {
          if ner.isPersonToken(tok) {
            autore := Some(tok);
            break;
          }
        }
        i := i + 1;
      }
      assert autore == if FirstPersonToken(tokens, ner) < |tokens| then Some(tokens[FirstPersonToken(tokens, ner)]) else None;
      var persons := ner.personCount(Blanked(restRaw));
      if persons > 1 {
        autore := Some(Anonimo);
      }
      if autore.None? && |tokens| > 1 {
        autore := Some(Anonimo);
      }
      var tail := restRaw;
      if autore.Some? && autore.value != "" && autore.value != Anonimo {
        tail := RemoveFirst(restRaw, autore.value + "-");
      }
      var t := StripInventory(tail);
      titolo := if t.Some? && t.value != "" then t else None;
    }
  }

  // ---------------------------------------------------------------------
  // Title (lines 116-121)

  /** The text the title is cut from: the remainder with the first
      occurrence of `author-` removed, for a real author only. */
  function Tail(restRaw: string, autore: Option<string>): (tail: string)
    ensures autore.None? || autore.value == "" || autore.value == Anonimo ==> tail == restRaw
    ensures autore.Some? && autore.value != "" && autore.value != Anonimo ==>
      var pat := autore.value + "-";
      match Find(restRaw, pat)
      case None => tail == restRaw
      case Some(i) => |tail| == |restRaw| - |pat| && tail[..i] == restRaw[..i] && tail[i..] == restRaw[i + |pat|..]
  {
    if autore.Some? && autore.value != "" && autore.value != Anonimo
    then RemoveFirst(restRaw, autore.value + "-")
    else restRaw
  }

  /** The title: the group `(.*?)` of the inventory pattern matched against
      the tail; `None` when the match fails or the group is empty. */
  function Title(restRaw: string, autore: Option<string>): (titolo: Option<string>)
    ensures titolo.Some? ==> titolo.value != "" && NoNewline(titolo.value)
  {
    match StripInventory(Tail(restRaw, autore))
    case None => None
    case Some(t) => if t == "" then None else Some(t)
  }

  /** A title is a non-empty, newline-free prefix of the tail after which the
      rest of the pattern matches, and it holds no inventory marker. On a
      tail without newlines there is no title exactly when the tail is empty
      or starts with a marker. */
  lemma TitleRules(restRaw: string, autore: Option<string>)
    ensures restRaw == "" ==> Title(restRaw, autore).None?
    ensures Title(restRaw, autore).Some? ==>
      var tail := Tail(restRaw, autore);
      var titolo := Title(restRaw, autore).value;
      titolo != "" && |titolo| <= |tail| && tail[..|titolo|] == titolo &&
      NoNewline(titolo) && RestMatchesAt(tail, |titolo|)
    ensures Title(restRaw, autore).Some? ==> forall j: nat :: !InventoryAt(Title(restRaw, autore).value, j)
    ensures NoNewline(Tail(restRaw, autore)) ==>
      (Title(restRaw, autore).None? <==> Tail(restRaw, autore) == "" || InventoryAt(Tail(restRaw, autore), 0))
  {
    var tail := Tail(restRaw, autore);
    StripHasNoInventory(tail);
    if NoNewline(tail) {
      StripPlain(tail);
    }
  }

  // ---------------------------------------------------------------------
  // Document type (lines 124-147)

  /** The second `_`-token of a file name, upper-cased, or `''`. */
  function PdfCode(fileName: string): (code: string)
    ensures NoneIn(fileName, {'_'}) ==> code == ""
    ensures NoneIn(code, {'_'}) && forall i :: 0 <= i < |code| ==> !IsLower(code[i])
  {
    var parts := SplitOn(fileName, {'_'}, -1);
    SplitPieces(fileName, {'_'});
    if |parts| > 1 then Upper(parts[1]) else ""
  }

  /** The index of the first keyword at or after `i`, in table order, that
      occurs in `low`, or the table's length. */
  function KeywordFrom(low: string, i: nat): (k: nat)
    requires i <= |KeywordTypeTable|
    ensures i <= k <= |KeywordTypeTable|
    ensures forall j :: i <= j < k ==> !Contains(low, KeywordTypeTable[j].0)
    ensures k < |KeywordTypeTable| ==> Contains(low, KeywordTypeTable[k].0)
    decreases |KeywordTypeTable| - i
  {
    if i == |KeywordTypeTable| then i
    else if Contains(low, KeywordTypeTable[i].0) then i
    else KeywordFrom(low, i + 1)
  }

  /** A PDF: the code table first, then the first keyword found in the
      lower-cased name, then `pdf`. */
  function PdfType(fileName: string): (tipo: string)
    ensures tipo != UnknownType
  {
    var code := PdfCode(fileName);
    if code in PdfTypeMap then PdfTypeMap[code]
    else
      var k := KeywordFrom(Lower(fileName), 0);
      assert forall i | 0 <= i < |KeywordTypeTable| :: KeywordTypeTable[i].1 != UnknownType;
      if k < |KeywordTypeTable| then KeywordTypeTable[k].1 else "pdf"
  }

  /** The PDF rules in order: a known code wins; otherwise the first keyword
      in table order that occurs in the lower-cased name; otherwise `pdf`. */
  lemma PdfTypeRules(fileName: string)
    ensures PdfCode(fileName) in PdfTypeMap ==> PdfType(fileName) == PdfTypeMap[PdfCode(fileName)]
    ensures forall i :: 0 <= i < |KeywordTypeTable| && PdfCode(fileName) !in PdfTypeMap
              && Contains(Lower(fileName), KeywordTypeTable[i].0)
              && (forall j :: 0 <= j < i ==> !Contains(Lower(fileName), KeywordTypeTable[j].0))
              ==> PdfType(fileName) == KeywordTypeTable[i].1
    ensures PdfCode(fileName) !in PdfTypeMap
            && (forall i :: 0 <= i < |KeywordTypeTable| ==> !Contains(Lower(fileName), KeywordTypeTable[i].0))
            ==> PdfType(fileName) == "pdf"
  {
  }

  /** `folder.split('_')[1].lower()` when the folder has an underscore,
      else `''`. */
  function AnalysisSub(folder: string): (sub: string)
    ensures '_' !in folder ==> sub == ""
    ensures NoneIn(sub, {'_'}) && forall i :: 0 <= i < |sub| ==> !IsUpper(sub[i])
  {
    if '_' in folder then
      var parts := SplitOn(folder, {'_'}, -1);
      assert !NoneIn(folder, {'_'});
      SplitPieces(folder, {'_'});
      Lower(parts[1])
    else ""
  }

  /** The analysis token is the folder's location, lower-cased. */
  lemma AnalysisSubIsLuogo(folder: string)
    requires '_' in folder
    ensures AnalysisSub(folder) == Lower(Decompose(folder).luogo.value)
  {
    var k := FirstSep(folder, {'_'});
    assert !NoneIn(folder, {'_'});
    var rest := folder[k + 1..];
    SplitOnStep(folder, {'_'}, -1);
    SplitOnStep(folder, {'_'}, 2);
    SplitFirst(rest, {'_'}, -1);
    SplitFirst(rest, {'_'}, 1);
  }

  /** The label of an analysis photograph: the table entry for the token, or
      the token title-cased. */
  function AnalysisLabel(sub: string): (tag: string)
    ensures sub in AnalysisMap ==> tag == AnalysisPrefixLabel + AnalysisMap[sub]
    ensures sub !in AnalysisMap ==> tag == AnalysisPrefixLabel + TitleCase(sub)
    ensures tag != UnknownType
  {
    var tag := AnalysisPrefixLabel + if sub in AnalysisMap then AnalysisMap[sub] else TitleCase(sub);
    assert tag[0] == 'F' != UnknownType[0];
    tag
  }

  /** A photograph: a phase name, then an analysis name, then the extension. */
  function ImageType(fileName: string, commessa: Option<string>, folder: string, ext: string): (tipo: string)
    ensures ext != UnknownType ==> tipo != UnknownType
  {
    var phase := if commessa.Some? then PhaseOf(fileName, commessa.value) else None;
    if phase.Some? then PhaseLabels[phase.value]
    else if AnalysisPrefix(fileName) then AnalysisLabel(AnalysisSub(folder))
    else ext
  }

  /** The photograph rules in order: the phase label for a name of the
      phase shape; otherwise the analysis label for an `M<digit>` name;
      otherwise the extension. */
  lemma ImageTypeRules(fileName: string, commessa: Option<string>, folder: string, ext: string)
    ensures commessa.Some? && PhaseOf(fileName, commessa.value).Some? ==>
      ImageType(fileName, commessa, folder, ext) == PhaseLabels[PhaseOf(fileName, commessa.value).value]
    ensures (commessa.None? || PhaseOf(fileName, commessa.value).None?) && AnalysisPrefix(fileName) ==>
      ImageType(fileName, commessa, folder, ext) == AnalysisLabel(AnalysisSub(folder))
    ensures (commessa.None? || PhaseOf(fileName, commessa.value).None?) && !AnalysisPrefix(fileName) ==>
      ImageType(fileName, commessa, folder, ext) == ext
  {
  }

  /** The document type. Every branch assigns it, so it is never the initial
      `Unknown`; an extension that is neither `pdf` nor an image passes
      through verbatim. */
  function FileType(fileName: string, commessa: Option<string>, folder: string): (tipo: string)
    ensures tipo != UnknownType
    ensures Extension(fileName) != "pdf" && Extension(fileName) !in ImageExtensions ==>
      tipo == Extension(fileName)
  {
    var ext := Extension(fileName);
    assert ext != UnknownType by { assert IsUpper(UnknownType[0]); }
    if ext == "pdf" then PdfType(fileName)
    else if ext in ImageExtensions then ImageType(fileName, commessa, folder, ext)
    else ext
  }

  // ---------------------------------------------------------------------
  // One record, and the table (lines 71-158)

  /** The record of one object name. No field can fail: every index the
      source takes is guarded, and this function has no precondition. */
  function RecordOf(fullPath: string, ner: Recogniser): (r: Record)
    ensures r.path == fullPath
    ensures NoneIn(r.sourceTitle, {'/'}) && |r.sourceTitle| <= |fullPath|
    ensures r.sourceTitle == fullPath[|fullPath| - |r.sourceTitle|..]
    ensures r.tipoFile != UnknownType
  {
    var parts := Segments(fullPath);
    var fileName := FileName(fullPath);
    var folder := FolderBase(parts);
    var d := Decompose(folder);
    var autore := Author(d.restRaw, ner);
    Record(fileName, fullPath, d.commessa, d.luogo, autore, Title(d.restRaw, autore),
           Anno(d.commessa), FileType(fileName, d.commessa, folder))
  }

  /** The body of the loop over object names. */
  method ParsePath(fullPath: string, ner: Recogniser) returns (rec: Record)
    ensures rec == RecordOf(fullPath, ner)
  {
    var parts := Segments(fullPath);
    var fileName := FileName(fullPath);
    var folder := DetectFolderBase(parts);
    var d := Decompose(folder);
    var anno := Anno(d.commessa);
    var autore, titolo := ResolveAuthor(d.restRaw, ner);
    var tipo := UnknownType;
    var ext := Extension(fileName);
    if ext == "pdf" {
      tipo := PdfType(fileName);
    } else if ext in ImageExtensions {
      tipo := ImageType(fileName, d.commessa, folder, ext);
    } else {
      tipo := ext;
    }
    rec := Record(fileName, fullPath, d.commessa, d.luogo, autore, titolo, anno, tipo);
  }

  /** `f` applied to every element of `xs`, in order. */
  function MapAll<A, B>(xs: seq<A>, f: A -> B): (ys: seq<B>)
    ensures |ys| == |xs|
  {
    if xs == [] then [] else MapAll(xs[..|xs| - 1], f) + [f(xs[|xs| - 1])]
  }

  lemma {:induction false} MapAllAt<A, B>(xs: seq<A>, f: A -> B, i: nat)
    requires i < |xs|
    ensures MapAll(xs, f)[i] == f(xs[i])
  {
    var front := xs[..|xs| - 1];
    if i < |front| {
      MapAllAt(front, f, i);
      assert xs[i] == front[i];
    }
  }

  /** The record of a name, as a function value. */
  function RowOf(ner: Recogniser): string -> Record
  {
    (name: string) => RecordOf(name, ner)
  }

  /** The table of a listing: one record per name, in input order. */
  function Table(names: seq<string>, ner: Recogniser): (rows: seq<Record>)
    ensures |rows| == |names|
  {
    MapAll(names, RowOf(ner))
  }

  /** Row `i` of the table is the record of name `i`. */
  lemma TableRow(names: seq<string>, ner: Recogniser, i: nat)
    requires i < |names|
    ensures Table(names, ner)[i] == RecordOf(names[i], ner)
  {
    MapAllAt(names, RowOf(ner), i);
  }

  /** The loop over the bucket listing. */
  method Extract(objectNames: seq<string>, ner: Recogniser) returns (records: seq<Record>)
    ensures records == Table(objectNames, ner)
  {
    records := [];
    for i := 0 to |objectNames|
      invariant records == Table(objectNames[..i], ner)
    {
      var rec := ParsePath(objectNames[i], ner);
      assert objectNames[..i + 1][..i] == objectNames[..i];
      assert RowOf(ner)(objectNames[i]) == rec;
      records := records + [rec];
    }
    assert objectNames[..|objectNames|] == objectNames;
  }
}
