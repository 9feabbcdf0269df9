/**
  Reading a dialog fragment back into its View. ParseFragment inverts Render for every
  View whose free text cannot be mistaken for the markup around it (Unambiguous). That
  round trip is the markup contract: the blocker is there iff the dialog is modal, the
  header block iff there is a header, the style attribute carries exactly the given sizes,
  and the button row holds every key and label, in order.
 */
module MarkupParse {
  import opened Wrappers
  import opened Text
  import opened JsValues
  import opened Markup

  /** No key holds a double quote and no label an opening angle bracket. */
  predicate CleanEntries(entries: seq<(string, string)>) {
    forall i :: 0 <= i < |entries| ==> '"' !in entries[i].0 && '<' !in entries[i].1
  }

  predicate Unambiguous(v: View) {
    && (v.id.Some? ==> '"' !in v.id.value)
    && (v.header.Some? ==> '<' !in v.header.value)
    && !Contains(v.content, ButtonsOpen)
    && (v.buttons.Some? ==> CleanEntries(v.buttons.value))
  }

  function ParseIdAttr(s: string): Option<(Option<string>, string)> {
    match StripPrefix(s, "id=\"")
    case None => Some((None, s))
    case Some(t) =>
      var p :- SplitAt(t, '"');
      Some((Some(p.0), p.1))
  }

  /** `prefix`, an integer, then "px;". */
  function ParseDecl(s: string, prefix: string): Option<(int, string)> {
    var t :- StripPrefix(s, prefix);
    var p :- SplitAt(t, 'p');
    var n :- ParseInt(p.0);
    var rest :- StripPrefix(p.1, "x;");
    Some((n, rest))
  }

  function ParseStyleDecls(s: string): Option<(Option<int>, Option<int>)> {
    if "--width: " <= s then
      var w :- ParseDecl(s, "--width: ");
      if w.1 == "" then Some((Some(w.0), None))
      else
        var t :- StripPrefix(w.1, " ");
        var h :- ParseDecl(t, "--height: ");
        if h.1 == "" then Some((Some(w.0), Some(h.0))) else None
    else
      var h :- ParseDecl(s, "--height: ");
      if h.1 == "" then Some((None, Some(h.0))) else None
  }

  function ParseStyleAttr(s: string): Option<(Option<int>, Option<int>, string)> {
    match StripPrefix(s, " style=\"")
    case None => Some((None, None, s))
    case Some(t) =>
      var p :- SplitAt(t, '"');
      var d :- ParseStyleDecls(p.0);
      Some((d.0, d.1, p.1))
  }

  /** A header block: "<header>", text up to the first '<', then `tail`, which opens with '<'. */
  function ParseHeaderBlock(s: string, tail: string): Option<(Option<string>, string)>
    requires |tail| > 0
  {
    match StripPrefix(s, "<header>")
    case None => Some((None, s))
    case Some(t) =>
      var p :- SplitAt(t, '<');
      var rest :- StripPrefix(p.1, tail[1..]);
      Some((Some(p.0), rest))
  }

  function ParseHeader(s: string): Option<(Option<string>, string)> {
    ParseHeaderBlock(s, HeaderTail)
  }

  function ParseButtonTags(s: string): Option<seq<(string, string)>>
    decreases |s|
  {
    if s == [] then Some([])
    else
      var t :- StripPrefix(s, "<button data-value=\"");
      var k :- SplitAt(t, '"');
      var u :- StripPrefix(k.1, ">");
      var l :- SplitAt(u, '<');
      var rest :- StripPrefix(l.1, "/button>");
      var more :- ParseButtonTags(rest);
      Some([(k.0, l.0)] + more)
  }

  /** The content, then the button row if a container with opening tag `opener` follows it. */
  function ParseBodyWith(s: string, opener: string): Option<(string, Option<seq<(string, string)>>)> {
    match Find(s, opener)
    case None => Some((s, None))
    case Some(i) =>
      var tags :- StripSuffix(s[i + |opener|..], "</div>");
      var b :- ParseButtonTags(tags);
      Some((s[..i], Some(b)))
  }

  function ParseBody(s: string): Option<(string, Option<seq<(string, string)>>)> {
    ParseBodyWith(s, ButtonsOpen)
  }

  /** The opening tag after "<div ": id attribute, class, style attribute, ">". */
  function ParseOpenTag(s: string): Option<(Option<string>, Option<int>, Option<int>, string)> {
    var id :- ParseIdAttr(s);
    var b :- StripPrefix(id.1, DialogClassAttr);
    var style :- ParseStyleAttr(b);
    var c :- StripPrefix(style.2, ">");
    Some((id.0, style.0, style.1, c))
  }

  /** What follows the opening tag: the header block, then main with the content and the button row. */
  function ParseInner(s: string): Option<(Option<string>, string, Option<seq<(string, string)>>)> {
    var header :- ParseHeader(s);
    var d :- StripPrefix(header.1, "<main>");
    var e :- StripSuffix(d, MainClose);
    var body :- ParseBody(e);
    Some((header.0, body.0, body.1))
  }

  function ParseNode(s: string): Option<View> {
    var a :- StripPrefix(s, "<div ");
    var tag :- ParseOpenTag(a);
    var inner :- ParseInner(tag.3);
    Some(View(false, tag.0, tag.1, tag.2, inner.0, inner.1, inner.2))
  }

  function ParseFragment(s: string): Option<View> {
    match StripPrefix(s, BlockerOpen)
    case Some(t) =>
      var node :- StripSuffix(t, "</div>");
      var v :- ParseNode(node);
      Some(v.(blocker := true))
    case None => ParseNode(s)
  }

  lemma StripPrefixOf(p: string, t: string)
    ensures StripPrefix(p + t, p) == Some(t)
  {
    assert (p + t)[..|p|] == p;
    assert (p + t)[|p|..] == t;
  }

  /** A text whose `i`th character differs from `p`'s does not start with `p`. */
  lemma NotPrefixAt(p: string, s: string, i: nat)
    requires i < |p| && i < |s| && p[i] != s[i]
    ensures !(p <= s)
  {
  }

  lemma IdAttrRoundTrip(id: Option<string>, rest: string)
    requires id.Some? ==> '"' !in id.value
    requires !("id=\"" <= rest)
    ensures ParseIdAttr(IdAttr(id) + rest) == Some((id, rest))
  {
    if id.Some? {
      var t := id.value + ['"'] + rest;
      assert IdAttr(id) + rest == "id=\"" + t;
      StripPrefixOf("id=\"", t);
      SplitAtFirst(id.value, '"', rest);
    } else {
      assert IdAttr(id) + rest == rest;
    }
  }

  lemma DeclRoundTrip(prefix: string, n: int, rest: string)
    ensures ParseDecl(prefix + IntText(n) + "px;" + rest, prefix) == Some((n, rest))
  {
    var t := IntText(n) + ['p'] + ("x;" + rest);
    assert prefix + IntText(n) + "px;" + rest == prefix + t;
    StripPrefixOf(prefix, t);
    SplitAtFirst(IntText(n), 'p', "x;" + rest);
    IntTextRoundTrip(n);
    StripPrefixOf("x;", rest);
  }

  lemma StyleDeclsRoundTrip(width: Option<int>, height: Option<int>)
    requires width.Some? || height.Some?
    ensures ParseStyleDecls(Join(StyleDecls(width, height), " ")) == Some((width, height))
  {
    if width.Some? && height.Some? {
      var h := HeightDecl(height.value);
      var hrest := " " + h;
      assert Join(StyleDecls(width, height), " ") == "--width: " + IntText(width.value) + "px;" + hrest;
      StripPrefixOf("--width: ", IntText(width.value) + "px;" + hrest);
      DeclRoundTrip("--width: ", width.value, hrest);
      StripPrefixOf(" ", h);
      assert h == "--height: " + IntText(height.value) + "px;" + "";
      DeclRoundTrip("--height: ", height.value, "");
    } else if width.Some? {
      var w := WidthDecl(width.value);
      assert w == "--width: " + IntText(width.value) + "px;" + "";
      StripPrefixOf("--width: ", IntText(width.value) + "px;");
      DeclRoundTrip("--width: ", width.value, "");
    } else {
      var h := HeightDecl(height.value);
      assert h == "--height: " + IntText(height.value) + "px;" + "";
      NotPrefixAt("--width: ", h, 2);
      DeclRoundTrip("--height: ", height.value, "");
    }
  }

  lemma DeclsHaveNoQuote(width: Option<int>, height: Option<int>)
    ensures '"' !in Join(StyleDecls(width, height), " ")
  {
    assert '"' !in "--width: " && '"' !in "--height: " && '"' !in "px;";
    if width.Some? {
      assert '"' !in WidthDecl(width.value);
    }
    if height.Some? {
      assert '"' !in HeightDecl(height.value);
    }
    if width.Some? && height.Some? {
      assert Join(StyleDecls(width, height), " ") == WidthDecl(width.value) + " " + HeightDecl(height.value);
    }
  }

  lemma StyleAttrRoundTrip(width: Option<int>, height: Option<int>, rest: string)
    requires !(" style=\"" <= rest)
    ensures ParseStyleAttr(StyleAttr(width, height) + rest) == Some((width, height, rest))
  {
    if width.Some? || height.Some? {
      var decls := Join(StyleDecls(width, height), " ");
      DeclsHaveNoQuote(width, height);
      var t := decls + ['"'] + rest;
      assert StyleAttr(width, height) + rest == " style=\"" + t;
      StripPrefixOf(" style=\"", t);
      SplitAtFirst(decls, '"', rest);
      StyleDeclsRoundTrip(width, height);
    } else {
      assert StyleAttr(width, height) + rest == rest;
    }
  }

  lemma HeaderBlockRoundTrip(text: string, tail: string, rest: string)
    requires '<' !in text && |tail| > 0 && tail[0] == '<'
    ensures ParseHeaderBlock("<header>" + text + tail + rest, tail) == Some((Some(text), rest))
  {
    var t := text + ['<'] + (tail[1..] + rest);
    assert tail == ['<'] + tail[1..];
    assert "<header>" + text + tail + rest == "<header>" + t;
    StripPrefixOf("<header>", t);
    SplitAtFirst(text, '<', tail[1..] + rest);
    StripPrefixOf(tail[1..], rest);
  }

  lemma HeaderRoundTrip(header: Option<string>, rest: string)
    requires header.Some? ==> '<' !in header.value
    requires !("<header>" <= rest)
    ensures ParseHeader(HeaderCode(header) + rest) == Some((header, rest))
  {
    if header.Some? {
      assert HeaderTail[0] == '<';
      HeaderBlockRoundTrip(header.value, HeaderTail, rest);
    } else {
      assert HeaderCode(header) + rest == rest;
    }
  }

  lemma TagLayout(key: string, caption: string, rest: string)
    ensures ButtonTag(key, caption) + rest
         == "<button data-value=\"" + (key + ['"'] + (">" + (caption + ['<'] + ("/button>" + rest))))
  {
    assert "\">" == ['"'] + ">";
    assert "</button>" == ['<'] + "/button>";
  }

  lemma {:induction false} ButtonTagsRoundTrip(entries: seq<(string, string)>)
    requires CleanEntries(entries)
    ensures ParseButtonTags(ButtonTags(entries)) == Some(entries)
  {
    if entries != [] {
      var key, caption := entries[0].0, entries[0].1;
      var rest := ButtonTags(entries[1..]);
      var r4 := "/button>" + rest;
      var r3 := caption + ['<'] + r4;
      var r2 := ">" + r3;
      var r1 := key + ['"'] + r2;
      TagLayout(key, caption, rest);
      assert ButtonTags(entries) == "<button data-value=\"" + r1;
      StripPrefixOf("<button data-value=\"", r1);
      SplitAtFirst(key, '"', r2);
      StripPrefixOf(">", r3);
      SplitAtFirst(caption, '<', r4);
      StripPrefixOf("/button>", rest);
      ButtonTagsRoundTrip(entries[1..]);
      assert [(key, caption)] + entries[1..] == entries;
    }
  }

  lemma BodyWithRoundTrip(content: string, opener: string, entries: seq<(string, string)>)
    requires |opener| > 0 && opener[0] !in opener[1..]
    requires !Contains(content, opener)
    requires CleanEntries(entries)
    ensures ParseBodyWith(content + (opener + (ButtonTags(entries) + "</div>")), opener) == Some((content, Some(entries)))
  {
    var tail := ButtonTags(entries) + "</div>";
    var s := content + (opener + tail);
    assert s == content + opener + tail;
    FindAfter(content, opener, tail);
    assert s[|content| + |opener|..] == tail;
    StripSuffixOf(ButtonTags(entries), "</div>");
    ButtonTagsRoundTrip(entries);
    assert s[..|content|] == content;
  }

  lemma BodyRoundTrip(content: string, buttons: Option<seq<(string, string)>>)
    requires !Contains(content, ButtonsOpen)
    requires buttons.Some? ==> CleanEntries(buttons.value)
    ensures ParseBody(content + ButtonsCode(buttons)) == Some((content, buttons))
  {
    if buttons.Some? {
      assert ButtonsOpen[0] !in ButtonsOpen[1..] by {
        assert ButtonsOpen[0] == '<' && '<' !in ButtonsOpen[1..];
      }
      BodyWithRoundTrip(content, ButtonsOpen, buttons.value);
      Regroup3(ButtonsOpen, ButtonTags(buttons.value), "</div>");
    } else {
      assert content + ButtonsCode(buttons) == content;
    }
  }

  lemma Regroup3(a: string, b: string, c: string)
    ensures a + b + c == a + (b + c)
  {
  }

  lemma Regroup(a: string, b: string, c: string, d: string, e: string, f: string, g: string, h: string, i: string, j: string)
    ensures a + b + c + d + e + f + g + h + i + j == a + (b + (c + (d + (e + (f + (g + ((h + i) + j)))))))
  {
  }

  lemma OpenTagRoundTrip(v: View, rest: string)
    requires v.id.Some? ==> '"' !in v.id.value
    requires |rest| > 0 && rest[0] == '<'
    ensures ParseOpenTag(IdAttr(v.id) + (DialogClassAttr + (StyleAttr(v.width, v.height) + (">" + rest))))
         == Some((v.id, v.width, v.height, rest))
  {
    var afterStyle := ">" + rest;
    var afterId := DialogClassAttr + (StyleAttr(v.width, v.height) + afterStyle);
    NotPrefixAt("id=\"", afterId, 0);
    IdAttrRoundTrip(v.id, afterId);
    StripPrefixOf(DialogClassAttr, StyleAttr(v.width, v.height) + afterStyle);
    NotPrefixAt(" style=\"", afterStyle, 0);
    StyleAttrRoundTrip(v.width, v.height, afterStyle);
    StripPrefixOf(">", rest);
  }

  lemma InnerRoundTrip(v: View)
    requires Unambiguous(v)
    ensures ParseInner(HeaderCode(v.header) + ("<main>" + ((v.content + ButtonsCode(v.buttons)) + MainClose)))
         == Some((v.header, v.content, v.buttons))
  {
    var main := v.content + ButtonsCode(v.buttons);
    var afterHeader := "<main>" + (main + MainClose);
    NotPrefixAt("<header>", afterHeader, 1);
    HeaderRoundTrip(v.header, afterHeader);
    StripPrefixOf("<main>", main + MainClose);
    StripSuffixOf(main, MainClose);
    BodyRoundTrip(v.content, v.buttons);
  }

  lemma NodeRoundTrip(v: View)
    requires Unambiguous(v)
    ensures ParseNode(DialogNode(v)) == Some(v.(blocker := false))
  {
    var main := v.content + ButtonsCode(v.buttons);
    var inner := HeaderCode(v.header) + ("<main>" + (main + MainClose));
    var tag := IdAttr(v.id) + (DialogClassAttr + (StyleAttr(v.width, v.height) + (">" + inner)));
    Regroup("<div ", IdAttr(v.id), DialogClassAttr, StyleAttr(v.width, v.height), ">",
      HeaderCode(v.header), "<main>", v.content, ButtonsCode(v.buttons), MainClose);
    assert DialogNode(v) == "<div " + tag;
    StripPrefixOf("<div ", tag);
    assert inner[0] == '<' by {
      if v.header.Some? {
        assert inner[0] == "<header>"[0];
      } else {
        assert inner[0] == "<main>"[0];
      }
    }
    OpenTagRoundTrip(v, inner);
    InnerRoundTrip(v);
  }

  /** Every unambiguous View is read back from its markup unchanged. */
  lemma ParseRender(v: View)
    requires Unambiguous(v)
    ensures ParseFragment(Render(v)) == Some(v)
  {
    NodeRoundTrip(v);
    BlockerIffModal(v);
    var node := DialogNode(v);
    if v.blocker {
      assert Render(v) == BlockerOpen + (node + "</div>");
      StripPrefixOf(BlockerOpen, node + "</div>");
      StripSuffixOf(node, "</div>");
    } else {
      assert Render(v) == node;
      assert StripPrefix(node, BlockerOpen).None?;
    }
  }

  /**
    What a call of show puts on the page, read back from the text: the blocker exactly when
    modal, a header exactly when the header argument is truthy, the button row exactly when
    buttons is truthy (its keys and labels in for-in order), a size only when truthy, and
    the content verbatim.
   */
  lemma ShowMarkup(id: Value, modal: bool, content: Value, header: Value, buttons: Value, width: Value, height: Value, html: string)
    requires Renderable(buttons, width, height)
    requires Unambiguous(ViewOf(id, modal, content, header, buttons, width, height))
    requires html == Render(ViewOf(id, modal, content, header, buttons, width, height))
    ensures ParseFragment(html).Some?
    ensures ParseFragment(html).value.blocker == modal
    ensures ParseFragment(html).value.header.Some? <==> Truthy(header)
    ensures ParseFragment(html).value.buttons.Some? <==> Truthy(buttons)
    ensures Truthy(buttons) ==> ParseFragment(html).value.buttons.value == Labels(buttons.props)
    ensures ParseFragment(html).value.width == Size(width)
    ensures ParseFragment(html).value.height == Size(height)
    ensures ParseFragment(html).value.content == ToStr(content)
  {
    var v := ViewOf(id, modal, content, header, buttons, width, height);
    ParseRender(v);
  }
}
