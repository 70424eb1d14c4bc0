/**
  The language badges the publisher command center shows next to a content
  item: labels derived from the item's app mode, its content category and
  the runtime versions it records, collected in a set and listed in
  ascending order.
*/
module Languages {
  import opened Basics
  import Text

  /** The fields of a content item the badges are computed from; None stands for null or missing. */
  datatype Content = Content(
    appMode: Option<string>,
    contentCategory: Option<string>,
    rVersion: Option<string>,
    pyVersion: Option<string>,
    quartoVersion: Option<string>)

  /** The app modes of the first switch case ("jupyter-static" is listed twice there). */
  const PythonModes: set<string> := {
    "jupyter-static", "python-api", "python-bokeh", "python-dash", "python-fastapi",
    "python-gradio", "python-shiny", "python-streamlit", "tensorflow-saved-model"
  }

  const QuartoModes: set<string> := {"quarto-shiny", "quarto-static"}

  const RModes: set<string> := {"rmd-shiny", "rmd-static", "shiny"}

  /** The content categories that mark an item as static output. */
  const StaticCategories: set<string> := {"plot", "pin", "rmd-static"}

  /** The labels a content item can receive. */
  datatype Language = Pin | Plot | Python | Quarto | R | Site | Static {
    function Name(): string {
      match this
      case Pin => "Pin"
      case Plot => "Plot"
      case Python => "Python"
      case Quarto => "Quarto"
      case R => "R"
      case Site => "Site"
      case Static => "Static"
    }
  }

  const AllLabels: set<string> := {"Pin", "Plot", "Python", "Quarto", "R", "Site", "Static"}

  /** No app mode falls under two cases of the switch. */
  lemma ModeCasesDisjoint()
    ensures PythonModes !! QuartoModes && PythonModes !! RModes && QuartoModes !! RModes
    ensures "static" !in PythonModes && "static" !in QuartoModes && "static" !in RModes
  {
  }

  /** Distinct labels have distinct names, and every name is one of the seven. */
  lemma NamesDistinct()
    ensures forall a: Language, b: Language :: a.Name() == b.Name() ==> a == b
    ensures forall a: Language :: a.Name() in AllLabels
  {
  }

  /** The item's value for a switch, which matches no case when it is missing. */
  predicate Matches(field: Option<string>, value: string) {
    field == Some(value)
  }

  predicate InModes(field: Option<string>, modes: set<string>) {
    field.Some? && field.value in modes
  }

  /** The two switches and four ifs of `getLanguages`, adding labels to a set. */
  method CollectLanguages(content: Content) returns (found: set<Language>)
    ensures Python in found <==> InModes(content.appMode, PythonModes) || Given(content.pyVersion)
    ensures Quarto in found <==> InModes(content.appMode, QuartoModes) || Given(content.quartoVersion)
    ensures R in found <==> InModes(content.appMode, RModes) || Given(content.rVersion)
    ensures Static in found <==> Matches(content.appMode, "static") || InModes(content.contentCategory, StaticCategories)
    ensures Pin in found <==> Matches(content.contentCategory, "pin")
    ensures Plot in found <==> Matches(content.contentCategory, "plot")
    ensures Site in found <==> Matches(content.contentCategory, "rmd-static")
  {
    ModeCasesDisjoint();
    found := {};

    var mode := content.appMode;
    if InModes(mode, PythonModes) {
      found := found + {Python};
    } else if InModes(mode, QuartoModes) {
      found := found + {Quarto};
    } else if InModes(mode, RModes) {
      found := found + {R};
    } else if Matches(mode, "static") {
      found := found + {Static};
    }

    var category := content.contentCategory;
    if Matches(category, "plot") {
      found := found + {Static, Plot};
    } else if Matches(category, "pin") {
      found := found + {Static, Pin};
    } else if Matches(category, "rmd-static") {
      found := found + {Static, Site};
    }

    if Given(content.rVersion) {
      found := found + {R};
    }
    if Given(content.pyVersion) {
      found := found + {Python};
    }
    if Given(content.quartoVersion) {
      found := found + {Quarto};
    }
    if Matches(category, "pin") {
      found := found + {Pin};
    }
  }

  /**
    `getLanguages(content)`: each label is present exactly when one of the
    rules that adds it applies, and the labels come out strictly ascending.
  */
  method GetLanguages(content: Content) returns (languages: seq<string>)
    ensures Text.StrictlySorted(languages)
    ensures "Python" in languages <==> InModes(content.appMode, PythonModes) || Given(content.pyVersion)
    ensures "Quarto" in languages <==> InModes(content.appMode, QuartoModes) || Given(content.quartoVersion)
    ensures "R" in languages <==> InModes(content.appMode, RModes) || Given(content.rVersion)
    ensures "Static" in languages <==> Matches(content.appMode, "static") || InModes(content.contentCategory, StaticCategories)
    ensures "Pin" in languages <==> Matches(content.contentCategory, "pin")
    ensures "Plot" in languages <==> Matches(content.contentCategory, "plot")
    ensures "Site" in languages <==> Matches(content.contentCategory, "rmd-static")
    ensures forall badge :: badge in languages ==> badge in AllLabels
    ensures |languages| == 0 <==>
              && !InModes(content.appMode, PythonModes + QuartoModes + RModes + {"static"})
              && !InModes(content.contentCategory, StaticCategories)
              && !Given(content.rVersion) && !Given(content.pyVersion) && !Given(content.quartoVersion)
  {
    var found := CollectLanguages(content);
    NamesDistinct();
    var names := set l | l in found :: l.Name();
    assert forall l :: l in found <==> l.Name() in names;
    languages := Text.SortedElements(names);
    if |languages| > 0 {
      assert languages[0] in names;
    }
  }
}
