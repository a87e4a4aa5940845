/**
 * Where the two back ends part ways on the same archive: the entry filter on names with a
 * trailing '/', which `cStat` element is read when there are several, and PHP's loose `==`.
 * Each lemma builds the same document for both models and states both verdicts.
 */
module Divergence {
  import opened Wrappers
  import opened Text
  import opened Nfe
  import Py = PyPipeline
  import Php = PhpJob

  /** On every member name that does not end in '/', the two filters keep the same members. */
  lemma FiltersAgree(name: string)
    requires name == [] || name[|name| - 1] != '/'
    ensures Php.IsXmlPath(name) <==> Py.IsXmlName(name)
  {
    PathFiltersAgree(name);
  }

  /** A directory entry named "notas.xml/": `pathinfo` drops the trailing '/' and finds the
      extension `xml`, so the PHP job processes it; Python's `endswith('.xml')` skips it. */
  lemma TrailingSlashKeptOnlyByPhp()
    ensures Php.IsXmlPath("notas.xml/")
    ensures !Py.IsXmlName("notas.xml/")
  {
    var name := "notas.xml/";
    assert StripTrailing(name, '/') == "notas.xml" by {
      assert name[..|name| - 1] == "notas.xml";
    }
    assert AfterLast("notas.xml", '/') == "notas.xml" by {
      AfterLastWithout("notas.xml", '/');
    }
    assert DotSuffix("notas.xml") == Some("xml") by {
      DotSuffixAt("notas.xml", 3);
    }
    assert Lower("xml") == "xml";
    assert Lower(name)[|name| - 1] == '/';
  }

  /** `AfterLast` returns the whole string when the separator does not occur in it. */
  lemma {:induction false} AfterLastWithout(s: string, c: char)
    requires c !in s
    ensures AfterLast(s, c) == s
  {
    if s != [] {
      AfterLastWithout(s[..|s| - 1], c);
      assert s == s[..|s| - 1] + [s[|s| - 1]];
    }
  }

  /** The tags of the example documents: only "cStat" ends with "cStat", and none of them ends
      with "xMotivo". */
  lemma ExampleTags(text: Option<string>)
    ensures Py.Tagged(Py.Element("cStat", text), "cStat")
    ensures !Py.Tagged(Py.Element("tpEmis", text), "cStat")
    ensures !Py.Tagged(Py.Element("cStat", text), "xMotivo")
    ensures !Py.Tagged(Py.Element("tpEmis", text), "xMotivo")
  {
    assert "tpEmis"[1..] != "cStat";
  }

  /** The Python verdict on a document whose last `cStat` is `code` and that has no `xMotivo`. */
  lemma PyRejectsLastStatus(nodes: seq<Py.Node>, i: nat, code: string)
    requires i < |nodes| && nodes[i] == Py.Element("cStat", Some(code)) && code != "100" && code != "150"
    requires forall j :: 0 <= j < |nodes| ==> !Py.Tagged(nodes[j], "xMotivo")
    requires forall j :: i < j < |nodes| ==> !Py.Tagged(nodes[j], "cStat")
    ensures Py.Classify(Some(nodes)) == Rejected(code, "Motivo não encontrado")
  {
    Py.StatusFromLastElement(nodes, i);
    Py.LastTaggedNone(nodes, "xMotivo");
  }

  /** A document with two `cStat` elements, "100" then "204", and `tpEmis` "1": Python reads the
      last `cStat` and rejects it; PHP reads the first and approves it. */
  lemma FirstOrLastStatus(load: Php.Loader, eq: Php.LooseEquality)
    requires load([1]) == Some([Php.DomElement("cStat", "100"), Php.DomElement("cStat", "204"),
                                Php.DomElement("tpEmis", "1")])
    requires eq("100", "100") && eq("1", "1")
    ensures Py.Classify(Some([Py.Element("cStat", Some("100")), Py.Element("cStat", Some("204")),
                              Py.Element("tpEmis", Some("1"))])) == Rejected("204", "Motivo não encontrado")
    ensures Php.Classify([1], load, eq) == Approved
  {
    ExampleTags(Some("100"));
    ExampleTags(Some("204"));
    ExampleTags(Some("1"));
    PyRejectsLastStatus([Py.Element("cStat", Some("100")), Py.Element("cStat", Some("204")),
                         Py.Element("tpEmis", Some("1"))], 1, "204");
    Php.DecisionRule([1], load, eq, 0);
    Php.GetTagValueFirst(load([1]).value, "tpEmis", 2);
  }

  /** With `cStat` "100.0", which PHP's `==` equates with "100" (both are numeric strings),
      PHP approves a normal emission while Python, comparing strings exactly, rejects it. */
  lemma LooseStatusComparison(load: Php.Loader, eq: Php.LooseEquality)
    requires load([1]) == Some([Php.DomElement("cStat", "100.0"), Php.DomElement("tpEmis", "1")])
    requires eq("100.0", "100") && eq("1", "1")
    ensures Py.Classify(Some([Py.Element("cStat", Some("100.0")), Py.Element("tpEmis", Some("1"))]))
              == Rejected("100.0", "Motivo não encontrado")
    ensures Php.Classify([1], load, eq) == Approved
  {
    ExampleTags(Some("100.0"));
    ExampleTags(Some("1"));
    PyRejectsLastStatus([Py.Element("cStat", Some("100.0")), Py.Element("tpEmis", Some("1"))], 0, "100.0");
    Php.DecisionRule([1], load, eq, 0);
    Php.GetTagValueFirst(load([1]).value, "tpEmis", 1);
  }
}
