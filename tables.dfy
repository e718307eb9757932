/** The fixed lookup tables of the extractor (estrazione_Path_Tag.py:35-59)
    and the constants that its branches use. */
module Tables {

  /** Three-letter document codes of PDF names, e.g. `..._RES_...pdf`. */
  const PdfTypeMap: map<string, string> := map[
    "RES" := "Scheda di restauro",
    "RTM" := "Relazione tecnica indagini multispettrali",
    "RTS" := "Relazione tecnica indagini scientifiche",
    "CAM" := "Scheda di campionamento",
    "STR" := "Scheda tecnica di rilevamento"
  ]

  /** Keywords searched for in lower-cased PDF names. Kept as a sequence
      because the first keyword in table order that occurs wins. */
  const KeywordTypeTable: seq<(string, string)> := [
    ("scheda di restauro", "Scheda di restauro"),
    ("relazione tecnica", "Relazione tecnica"),
    ("campionamento", "Scheda di campionamento"),
    ("rilevamento", "Scheda tecnica di rilevamento"),
    ("mappature", "Mappature grafiche"),
    ("analisi", "Analisi della specie lignea")
  ]

  /** Multispectral analysis codes. The source's dictionary literal lists
      "ir" twice; its later entry is the one a dictionary keeps. */
  const AnalysisMap: map<string, string> := map[
    "fc" := "Falso colore",
    "ir" := "Infrarosso in bianco e nero",
    "uv" := "Fluorescenza ultravioletta",
    "rx" := "Radiografia"
  ]

  /** Words common in titles that are never taken for an author. */
  const TitleBlacklist: set<string> := {"Lampadario", "Scena", "Specchiera", "Paravento", "Scrivania"}

  /** Extensions handled as photographs. */
  const ImageExtensions: seq<string> := ["jpg", "jpeg", "png", "tif", "tiff", "bmp"]

  /** Labels of the restoration phases Prima, Durante and Fine. */
  const PhaseLabels: map<char, string> := map[
    'P' := "Fotografia fase restauro - Prima",
    'D' := "Fotografia fase restauro - Durante",
    'F' := "Fotografia fase restauro - Fine"
  ]

  const AnalysisPrefixLabel := "Fotografia analisi - "

  /** The author sentinel for "several or unidentified persons". */
  const Anonimo := "anonimo"

  /** The initial value of the type field, before any branch assigns it. */
  const UnknownType := "Unknown"
}
