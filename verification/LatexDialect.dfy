/** The command and environment tables of the LaTeX parser. The parser works for any table; `Latex` is the
    one the source spells out. */
module LatexDialect {
  import opened Utf8

  datatype Command =
    | LineBreak
    | Sectioning(level: nat)
    | Begin
    | SkipArg
    | SkipOptAndArg
    | FootnoteText
    | NoEffect
    | Graphics
    | InlineText
    | Literal(c: char)
    | Unknown

  datatype Environment = Verbatim | Listing | Math | Tabular | Abstract | Float | Skipped

  datatype Dialect = Dialect(commands: map<Text, Command>, environments: map<Text, Environment>, letters: set<Text>) {
    function CommandOf(name: Text): Command {
      if name in commands then commands[name] else Unknown
    }

    function EnvironmentOf(name: Text): Environment {
      if name in environments then environments[name] else Skipped
    }
  }

  function All<K(==), V>(names: set<K>, meaning: V): map<K, V> {
    map name | name in names :: meaning
  }

  /** The sectioning commands and their levels. */
  const HEADINGS: map<Text, nat> :=
    map["chapter" := 1, "chapter*" := 1, "section" := 2, "section*" := 2, "subsection" := 3, "subsection*" := 3,
        "subsubsection" := 4, "subsubsection*" := 4, "paragraph" := 5, "paragraph*" := 5,
        "subparagraph" := 6, "subparagraph*" := 6]

  const OTHER_COMMANDS: map<Text, Command> :=
    All({"\\", "newline"}, LineBreak)
    + map["begin" := Begin, "footnote" := FootnoteText, "footnotemark" := NoEffect, "includegraphics" := Graphics]
    + All({"end", "label", "ref", "pageref", "eqref", "vref", "autoref", "cref", "Cref", "nameref", "hyperref",
           "title", "author", "date", "keywords", "abstract"}, SkipArg)
    + All({"cite", "citep", "citet", "citealt", "citeyear", "citeauthor", "parencite", "textcite", "autocite",
           "documentclass", "usepackage", "newcommand", "renewcommand", "providecommand", "newenvironment",
           "renewenvironment", "setlength", "setcounter", "addtocounter", "pagestyle", "thispagestyle",
           "pagenumbering", "maketitle", "tableofcontents", "listoffigures", "listoftables", "bibliography",
           "bibliographystyle", "printbibliography", "addbibresource", "clearpage", "cleardoublepage", "newpage",
           "pagebreak", "vspace", "hspace", "vskip", "hskip", "medskip", "smallskip", "bigskip", "noindent",
           "indent", "centering", "raggedright", "raggedleft", "appendix", "frontmatter", "mainmatter",
           "backmatter", "input", "include", "includeonly", "selectfont", "fontsize", "linespread", "color",
           "textcolor", "colorbox", "fcolorbox"}, SkipOptAndArg)
    + All({"textbf", "textit", "texttt", "textsc", "textsl", "textrm", "emph", "underline", "uline", "overline",
           "textsuperscript", "textsubscript", "mbox", "hbox"}, InlineText)
    + map["%" := Literal('%'), "&" := Literal('&'), "$" := Literal('$'), "#" := Literal('#'),
          "_" := Literal('_'), "^" := Literal('^'), "~" := Literal('~')]

  const ENVIRONMENTS: map<Text, Environment> :=
    All({"verbatim", "Verbatim"}, Verbatim)
    + All({"lstlisting", "minted"}, Listing)
    + All({"equation", "equation*", "align", "align*", "gather", "gather*", "multline", "multline*", "eqnarray",
           "eqnarray*", "math"}, Math)
    + All({"tabular", "tabularx", "longtable", "array"}, Tabular)
    + map["abstract" := Abstract]
    + All({"figure", "figure*", "table", "table*", "wrapfigure"}, Float)

  /** A table with headings added. */
  function WithHeadings(commands: map<Text, Command>, levels: map<Text, nat>): map<Text, Command> {
    commands + map name | name in levels :: Sectioning(levels[name])
  }

  function Latex(letters: set<Text>): Dialect {
    Dialect(WithHeadings(OTHER_COMMANDS, HEADINGS), ENVIRONMENTS, letters)
  }

  lemma HeadingEntry(commands: map<Text, Command>, environments: map<Text, Environment>, letters: set<Text>,
                     levels: map<Text, nat>, name: Text)
    requires name in levels
    ensures Dialect(WithHeadings(commands, levels), environments, letters).CommandOf(name) == Sectioning(levels[name])
  {
  }

  /** Every sectioning command has a starred entry of the same level. */
  lemma StarredEntry(stem: Text)
    requires stem in {"chapter", "section", "subsection", "subsubsection", "paragraph", "subparagraph"}
    ensures stem in HEADINGS && stem + "*" in HEADINGS && HEADINGS[stem + "*"] == HEADINGS[stem]
  {
    assert "chapter" + "*" == "chapter*" && "section" + "*" == "section*" && "subsection" + "*" == "subsection*";
    assert "subsubsection" + "*" == "subsubsection*" && "paragraph" + "*" == "paragraph*";
    assert "subparagraph" + "*" == "subparagraph*";
  }
}
