/** The argument string that startLauncher hands to the Eclipse launcher's
    main(String) entry point. */
module Launch {
  import opened Text
  import opened Platform

  /** The in-process launch string: platform, install location, a workspace under
      the install location (for both -data and -user), locale, then the mode
      argument, which carries its own leading space. The concatenation is that of
      the source, grouped from the right. */
  function LaunchString(os: string, arch: string, installUrl: string, locale: string, mode: string): string
  {
    "-os " + (os + (" -ws " + (WindowSystem(os) + (" -arch " + (arch + (" -install " + (installUrl
    + (" -data " + (installUrl + "/workspace/" + (" -user " + (installUrl + "/workspace/"
    + (" -nl " + (locale + mode)))))))))))))
  }

  /** The words of the launch string before the mode argument. */
  function LaunchWords(os: string, arch: string, installUrl: string, locale: string): seq<string>
  {
    ["-os", os, "-ws", WindowSystem(os), "-arch", arch, "-install", installUrl]
    + ["-data", installUrl + "/workspace/", "-user", installUrl + "/workspace/", "-nl", locale]
  }

  /** One " -option value" group, where `lit` is the literal " -option ". */
  lemma OptionWords(lit: string, flag: string, value: string, rest: string)
    requires lit == " " + flag + " "
    requires IsWord(flag) && IsWord(value)
    requires rest == [] || rest[0] == ' '
    ensures Words(lit + (value + rest)) == [flag, value] + Words(rest)
  {
    var inner := " " + (value + rest);
    calc {
      Words(lit + (value + rest));
      { assert lit + (value + rest) == " " + (flag + inner); }
      Words(" " + (flag + inner));
      { LeadingSpace(flag + inner); }
      Words(flag + inner);
      { WordThenRest(flag, inner); }
      [flag] + Words(inner);
      { LeadingSpace(value + rest); }
      [flag] + Words(value + rest);
      { WordThenRest(value, rest); }
      [flag] + ([value] + Words(rest));
      [flag, value] + Words(rest);
    }
  }

  /** Two consecutive " -option value" groups. */
  lemma TwoOptions(l1: string, f1: string, v1: string, l2: string, f2: string, v2: string, rest: string)
    requires l1 == " " + f1 + " " && l2 == " " + f2 + " "
    requires IsWord(f1) && IsWord(v1) && IsWord(f2) && IsWord(v2)
    requires rest == [] || rest[0] == ' '
    ensures Words(l1 + (v1 + (l2 + (v2 + rest)))) == [f1, v1, f2, v2] + Words(rest)
  {
    var r := l2 + (v2 + rest);
    assert r[0] == ' ';
    OptionWords(l1, f1, v1, r);
    OptionWords(l2, f2, v2, rest);
    AppendAssoc([f1, v1], [f2, v2], Words(rest));
  }

  /** Three consecutive groups. */
  lemma ThreeOptions(l1: string, f1: string, v1: string, l2: string, f2: string, v2: string,
                     l3: string, f3: string, v3: string, rest: string)
    requires l1 == " " + f1 + " " && l2 == " " + f2 + " " && l3 == " " + f3 + " "
    requires IsWord(f1) && IsWord(v1) && IsWord(f2) && IsWord(v2) && IsWord(f3) && IsWord(v3)
    requires rest == [] || rest[0] == ' '
    ensures Words(l1 + (v1 + (l2 + (v2 + (l3 + (v3 + rest))))))
      == [f1, v1, f2, v2, f3, v3] + Words(rest)
  {
    var r := l3 + (v3 + rest);
    assert r[0] == ' ';
    TwoOptions(l1, f1, v1, l2, f2, v2, r);
    OptionWords(l3, f3, v3, rest);
    AppendAssoc([f1, v1, f2, v2], [f3, v3], Words(rest));
  }

  /** Four consecutive groups. */
  lemma FourOptions(l1: string, f1: string, v1: string, l2: string, f2: string, v2: string,
                    l3: string, f3: string, v3: string, l4: string, f4: string, v4: string, rest: string)
    requires l1 == " " + f1 + " " && l2 == " " + f2 + " " && l3 == " " + f3 + " " && l4 == " " + f4 + " "
    requires IsWord(f1) && IsWord(v1) && IsWord(f2) && IsWord(v2)
    requires IsWord(f3) && IsWord(v3) && IsWord(f4) && IsWord(v4)
    requires rest == [] || rest[0] == ' '
    ensures Words(l1 + (v1 + (l2 + (v2 + (l3 + (v3 + (l4 + (v4 + rest))))))))
      == [f1, v1, f2, v2, f3, v3, f4, v4] + Words(rest)
  {
    var r := l3 + (v3 + (l4 + (v4 + rest)));
    assert r[0] == ' ';
    TwoOptions(l1, f1, v1, l2, f2, v2, r);
    TwoOptions(l3, f3, v3, l4, f4, v4, rest);
    AppendAssoc([f1, v1, f2, v2], [f3, v3, f4, v4], Words(rest));
  }

  /** Read back word by word, the launch string gives each option followed by its
      value, in the fixed order, then the words of the mode argument: the string is
      fully determined by its inputs and no input bleeds into a neighbouring option. */
  lemma LaunchStringWords(os: string, arch: string, installUrl: string, locale: string, mode: string)
    requires IsWord(os) && IsWord(arch) && IsWord(installUrl) && IsWord(locale)
    requires mode == [] || mode[0] == ' '
    ensures Words(LaunchString(os, arch, installUrl, locale, mode))
      == LaunchWords(os, arch, installUrl, locale) + Words(mode)
  {
    var ws, work := WindowSystem(os), installUrl + "/workspace/";
    WindowSystemIsWord(os);
    WorkspaceIsWord(installUrl);
    var r5 := " -data " + (work + (" -user " + (work + (" -nl " + (locale + mode)))));
    assert r5[0] == ' ';
    var head := ["-os", os, "-ws", ws, "-arch", arch, "-install", installUrl];
    var tail := ["-data", work, "-user", work, "-nl", locale];
    calc {
      Words(LaunchString(os, arch, installUrl, locale, mode));
      { LeadingSpace(LaunchString(os, arch, installUrl, locale, mode));
        LaunchStringSpaced(os, arch, installUrl, locale, mode); }
      Words(" -os " + (os + (" -ws " + (ws + (" -arch " + (arch + (" -install " + (installUrl + r5))))))));
      { HeadWords(os, ws, arch, installUrl, r5); }
      head + Words(r5);
      { TailWords(work, locale, mode); }
      head + (tail + Words(mode));
      { AppendAssoc(head, tail, Words(mode)); }
      LaunchWords(os, arch, installUrl, locale) + Words(mode);
    }
  }

  lemma WindowSystemIsWord(os: string)
    ensures IsWord(WindowSystem(os))
  {
  }

  lemma WorkspaceIsWord(installUrl: string)
    requires IsWord(installUrl)
    ensures IsWord(installUrl + "/workspace/")
  {
    assert ' ' !in "/workspace/";
  }

  /** The platform and install options. */
  lemma HeadWords(os: string, ws: string, arch: string, installUrl: string, rest: string)
    requires IsWord(os) && IsWord(ws) && IsWord(arch) && IsWord(installUrl)
    requires rest == [] || rest[0] == ' '
    ensures Words(" -os " + (os + (" -ws " + (ws + (" -arch " + (arch + (" -install " + (installUrl + rest))))))))
      == ["-os", os, "-ws", ws, "-arch", arch, "-install", installUrl] + Words(rest)
  {
    assert IsWord("-os") && IsWord("-ws") && IsWord("-arch") && IsWord("-install");
    FourOptions(" -os ", "-os", os, " -ws ", "-ws", ws, " -arch ", "-arch", arch,
                " -install ", "-install", installUrl, rest);
  }

  /** The workspace and locale options. */
  lemma TailWords(work: string, locale: string, mode: string)
    requires IsWord(work) && IsWord(locale)
    requires mode == [] || mode[0] == ' '
    ensures Words(" -data " + (work + (" -user " + (work + (" -nl " + (locale + mode))))))
      == ["-data", work, "-user", work, "-nl", locale] + Words(mode)
  {
    assert IsWord("-data") && IsWord("-user") && IsWord("-nl");
    ThreeOptions(" -data ", "-data", work, " -user ", "-user", work, " -nl ", "-nl", locale, mode);
  }

  lemma LaunchStringSpaced(os: string, arch: string, installUrl: string, locale: string, mode: string)
    ensures " " + LaunchString(os, arch, installUrl, locale, mode)
      == " -os " + (os + (" -ws " + (WindowSystem(os) + (" -arch " + (arch + (" -install " + (installUrl
         + (" -data " + (installUrl + "/workspace/" + (" -user " + (installUrl + "/workspace/"
         + (" -nl " + (locale + mode)))))))))))))
  {
  }

  lemma AppendAssoc<T>(a: seq<T>, b: seq<T>, c: seq<T>)
    ensures (a + b) + c == a + (b + c)
  {
  }
}
