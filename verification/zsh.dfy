/**
  The zsh prompt renderer: the shell renderer with zsh's highlight markers
  and with `%` added to the character-translation table.
 */
module ZshRenderer {

  /** The attributes a shell renderer defines for escaping prompt text. */
  datatype Renderer = Renderer(escapeHlStart: string, escapeHlEnd: string, characterTranslations: map<char, string>)

  /** zsh's markers around a zero-width (highlight) span. */
  const EscapeHlStart: string := "%{"
  const EscapeHlEnd: string := "%}"

  /** The zsh table: a copy of the shell table with `%` escaped as `%%`. */
  function ZshTranslations(shell: map<char, string>): (t: map<char, string>)
    ensures t.Keys == shell.Keys + {'%'}
    ensures t['%'] == "%%"
    ensures forall c :: c in shell && c != '%' ==> t[c] == shell[c]
  {
    shell['%' := "%%"]
  }

  /** The zsh renderer derived from the shell renderer. */
  function ZshPromptRenderer(shell: Renderer): (z: Renderer)
    ensures z.escapeHlStart == "%{" && z.escapeHlEnd == "%}"
    ensures z.characterTranslations.Keys == shell.characterTranslations.Keys + {'%'}
    ensures z.characterTranslations['%'] == "%%"
    ensures forall c :: c in shell.characterTranslations && c != '%' ==>
              z.characterTranslations[c] == shell.characterTranslations[c]
  {
    Renderer(EscapeHlStart, EscapeHlEnd, ZshTranslations(shell.characterTranslations))
  }

  /** Per-character substitution: a key of the table is replaced by its value, anything else is kept. */
  function Translate(table: map<char, string>, s: string): string
  {
    if s == [] then []
    else (if s[0] in table then table[s[0]] else [s[0]]) + Translate(table, s[1..])
  }

  /** Text with no key of the table passes through unchanged. */
  lemma {:induction false} TranslateUntouched(table: map<char, string>, s: string)
    requires forall i :: 0 <= i < |s| ==> s[i] !in table
    ensures Translate(table, s) == s
  {
    if s != [] {
      TranslateUntouched(table, s[1..]);
      assert [s[0]] + s[1..] == s;
    }
  }

  /** Text with neither `%` nor a key of the shell table passes through the zsh table unchanged. */
  lemma ZshLeavesPlainText(shell: map<char, string>, s: string)
    requires forall i :: 0 <= i < |s| ==> s[i] != '%' && s[i] !in shell
    ensures Translate(ZshTranslations(shell), s) == s
  {
    TranslateUntouched(ZshTranslations(shell), s);
  }

  /** Undoes the zsh escaping of `%`: each `%%` becomes `%`. */
  function CollapsePercents(r: string): string
    decreases |r|
  {
    if r == [] then []
    else if |r| >= 2 && r[0] == '%' && r[1] == '%' then "%" + CollapsePercents(r[2..])
    else [r[0]] + CollapsePercents(r[1..])
  }

  /**
    For text whose only table characters are `%`, the zsh table doubles each
    `%` and leaves the rest alone: collapsing `%%` recovers the text.
   */
  lemma {:induction false} ZshPercentRoundTrip(shell: map<char, string>, s: string)
    requires forall i :: 0 <= i < |s| ==> s[i] == '%' || s[i] !in shell
    ensures CollapsePercents(Translate(ZshTranslations(shell), s)) == s
  {
    var t := ZshTranslations(shell);
    if s != [] {
      ZshPercentRoundTrip(shell, s[1..]);
      var rest := Translate(t, s[1..]);
      if s[0] == '%' {
        assert Translate(t, s) == "%%" + rest;
        assert ("%%" + rest)[2..] == rest;
      } else {
        assert Translate(t, s) == [s[0]] + rest;
        assert ([s[0]] + rest)[1..] == rest;
      }
      assert [s[0]] + s[1..] == s;
    }
  }

  /** Every `%` in `r` is the first of an escaped pair `%%`. */
  predicate PercentsPaired(r: string)
    decreases |r|
  {
    if r == [] then true
    else if r[0] == '%' then |r| >= 2 && r[1] == '%' && PercentsPaired(r[2..])
    else PercentsPaired(r[1..])
  }

  lemma {:induction false} PercentsPairedAppend(a: string, b: string)
    requires PercentsPaired(a) && PercentsPaired(b)
    ensures PercentsPaired(a + b)
    decreases |a|
  {
    if a == [] {
      assert a + b == b;
    } else {
      assert (a + b)[0] == a[0];
      if a[0] == '%' {
        assert (a + b)[1] == a[1];
        assert (a + b)[2..] == a[2..] + b;
        PercentsPairedAppend(a[2..], b);
      } else {
        assert (a + b)[1..] == a[1..] + b;
        PercentsPairedAppend(a[1..], b);
      }
    }
  }

  /**
    When no shell-table replacement for a key other than `%` contains `%`
    (the zsh table overrides the `%` entry anyway), the zsh table leaves
    no lone `%` in its output: every `%` of the text comes out escaped.
   */
  lemma {:induction false} ZshLeavesNoLonePercent(shell: map<char, string>, s: string)
    requires forall c :: c in shell && c != '%' ==> '%' !in shell[c]
    ensures PercentsPaired(Translate(ZshTranslations(shell), s))
  {
    var t := ZshTranslations(shell);
    if s != [] {
      ZshLeavesNoLonePercent(shell, s[1..]);
      var head := if s[0] in t then t[s[0]] else [s[0]];
      if s[0] == '%' {
        assert head == "%%";
        assert PercentsPaired(head[2..]);
      } else {
        assert '%' !in head;
        NoPercentIsPaired(head);
      }
      PercentsPairedAppend(head, Translate(t, s[1..]));
    }
  }

  lemma {:induction false} NoPercentIsPaired(r: string)
    requires '%' !in r
    ensures PercentsPaired(r)
    decreases |r|
  {
    if r != [] {
      assert r[0] in r;
      assert forall c :: c in r[1..] ==> c in r;
      NoPercentIsPaired(r[1..]);
    }
  }
}
