/** The page skeleton the cleaners wrap a bare HTML fragment in. */
module Pages {
  /** The first line every completed page starts with. */
  const DoctypeLine: string := "<!DOCTYPE html>"

  // The skeleton is kept in short pieces so that facts about its characters can be
  // established one piece at a time.
  const HtmlOpen: string := "\n<html lang=\"en\">\n<head>\n"
  const MetaCharset: string := "    <meta charset=\"UTF-8\">\n"
  const MetaViewport: string :=
    "    <meta name=\"viewport\" " + "content=\"width=device-width, " + "initial-scale=1.0\">\n"
  const TitleLine: string := "    <title>Educational Game</title>\n"
  const BodyOpen: string := "</head>\n<body>\n"

  /** Everything of the skeleton before the fragment: the doctype, the `html` element and a
      `head` with charset, viewport and the fixed title "Educational Game", then `<body>`. */
  const ShellHead: string :=
    DoctypeLine + HtmlOpen + MetaCharset + MetaViewport + TitleLine + BodyOpen

  /** Everything after the fragment. */
  const ShellTail: string := "\n</body>\n</html>"

  /** The fragment placed inside the skeleton's `body`. */
  function Shell(fragment: string): (page: string)
    ensures |page| == |ShellHead| + |fragment| + |ShellTail|
    ensures page[..|ShellHead|] == ShellHead
    ensures page[|ShellHead|..|ShellHead| + |fragment|] == fragment
    ensures page[|ShellHead| + |fragment|..] == ShellTail
  {
    ShellHead + fragment + ShellTail
  }

  lemma ShellStartNoBacktick()
    ensures '`' !in DoctypeLine && '`' !in HtmlOpen && '`' !in MetaCharset
  {
  }

  lemma ViewportNoBacktick()
    ensures '`' !in "    <meta name=\"viewport\" "
    ensures '`' !in "content=\"width=device-width, "
    ensures '`' !in "initial-scale=1.0\">\n"
  {
  }

  lemma ShellEndNoBacktick()
    ensures '`' !in TitleLine && '`' !in BodyOpen && '`' !in ShellTail
  {
  }

  /** The skeleton holds no backtick, so wrapping a fragment adds no code fence. */
  lemma ShellNoBacktick()
    ensures '`' !in ShellHead && '`' !in ShellTail
  {
    ShellStartNoBacktick();
    ViewportNoBacktick();
    ShellEndNoBacktick();
  }
}
