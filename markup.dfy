/**
  The HTML fragment Dialog.show appends to the page (Dialog.js lines 54-79).

  `View` is the structure a fragment carries: the modal blocker, the id attribute, the
  sizes in the style attribute, the header text, the content and the button row.
  `Render` writes a View out as Dialog.js writes its template strings, `ViewOf` says which
  View a call of show produces, and the Compose methods build the text step by step as the
  source does (the button loop, the `styles` array and its join) and are proved to produce
  `Render(ViewOf(…))`. The reading direction is in module MarkupParse.
 */
module Markup {
  import opened Wrappers
  import opened Text
  import opened JsValues

  const DialogClass := "myDialog"
  const ModalBlockerClass := "myModalBlocker"
  const ButtonsContainerClass := "buttonsContainer"
  const CloseButtonClass := "closeButton"

  /** The activation value of the header's close affordance. */
  const CloseValue := "#close"

  /** The close icon; its path data is abbreviated here. */
  const CloseIcon := "<svg width=\"16\" height=\"16\" viewBox=\"0 0 14 14\" role=\"img\" focusable=\"false\" aria-hidden=\"true\" xmlns=\"http://www.w3.org/2000/svg\"><path d=\"…\"/></svg>"

  const BlockerOpen := "<div class=\"" + ModalBlockerClass + "\">"
  const DialogClassAttr := " class=\"" + DialogClass + "\""
  const ButtonsOpen := "<div class=\"" + ButtonsContainerClass + "\">"
  const CloseAffordance := "<div class=\"" + CloseButtonClass + "\" title=\"Закрыть\" data-value=\"" + CloseValue + "\">"

  /** Everything of the header block after the header text. */
  const HeaderTail := CloseAffordance + CloseIcon + "</div></header>"
  const MainClose := "</main></div>"

  datatype View = View(
    blocker: bool,
    id: Option<string>,
    width: Option<int>,
    height: Option<int>,
    header: Option<string>,
    content: string,
    buttons: Option<seq<(string, string)>>)

  function IdAttr(id: Option<string>): string {
    if id.Some? then "id=\"" + id.value + "\"" else ""
  }

  function WidthDecl(px: int): string {
    "--width: " + IntText(px) + "px;"
  }

  function HeightDecl(px: int): string {
    "--height: " + IntText(px) + "px;"
  }

  /** The `styles` array: the width declaration, then the height declaration, each only if given. */
  function StyleDecls(width: Option<int>, height: Option<int>): seq<string> {
    (if width.Some? then [WidthDecl(width.value)] else [])
    + (if height.Some? then [HeightDecl(height.value)] else [])
  }

  function StyleAttr(width: Option<int>, height: Option<int>): string {
    if width.Some? || height.Some? then " style=\"" + Join(StyleDecls(width, height), " ") + "\"" else ""
  }

  function HeaderCode(header: Option<string>): string {
    if header.Some? then "<header>" + header.value + HeaderTail else ""
  }

  function ButtonTag(key: string, caption: string): string {
    "<button data-value=\"" + key + "\">" + caption + "</button>"
  }

  function ButtonTags(entries: seq<(string, string)>): string {
    if entries == [] then "" else ButtonTag(entries[0].0, entries[0].1) + ButtonTags(entries[1..])
  }

  function ButtonsCode(buttons: Option<seq<(string, string)>>): string {
    if buttons.Some? then ButtonsOpen + ButtonTags(buttons.value) + "</div>" else ""
  }

  function DialogNode(v: View): string {
    "<div " + IdAttr(v.id) + DialogClassAttr + StyleAttr(v.width, v.height) + ">"
    + HeaderCode(v.header) + "<main>" + v.content + ButtonsCode(v.buttons) + MainClose
  }

  function Render(v: View): string {
    if v.blocker then BlockerOpen + DialogNode(v) + "</div>" else DialogNode(v)
  }

  /** What validation guarantees of the arguments the markup reads as objects and numbers. */
  predicate Renderable(buttons: Value, width: Value, height: Value) {
    (Truthy(buttons) ==> buttons.Obj?) && (Truthy(width) ==> width.Num?) && (Truthy(height) ==> height.Num?)
  }

  /** `{ value: "label" }` as (key, label text) pairs in for-in order. */
  function Labels(props: seq<(string, Value)>): seq<(string, string)> {
    seq(|props|, i requires 0 <= i < |props| => (props[i].0, ToStr(props[i].1)))
  }

  /** A width or height argument: used only when truthy. */
  function Size(v: Value): Option<int> {
    if Truthy(v) && v.Num? then Some(v.n) else None
  }

  /** The structure of the fragment that show(id, modal, content, header, buttons, …, width, height) appends. */
  function ViewOf(id: Value, modal: bool, content: Value, header: Value, buttons: Value, width: Value, height: Value): View
    requires Renderable(buttons, width, height)
  {
    View(
      modal,
      if Truthy(id) then Some(ToStr(id)) else None,
      Size(width),
      Size(height),
      if Truthy(header) then Some(ToStr(header)) else None,
      ToStr(content),
      if Truthy(buttons) then Some(Labels(buttons.props)) else None)
  }

  lemma {:induction false} ButtonTagsSnoc(entries: seq<(string, string)>, key: string, caption: string)
    ensures ButtonTags(entries + [(key, caption)]) == ButtonTags(entries) + ButtonTag(key, caption)
  {
    if entries != [] {
      assert (entries + [(key, caption)])[1..] == entries[1..] + [(key, caption)];
      ButtonTagsSnoc(entries[1..], key, caption);
    }
  }

  /** The button row of Dialog.js:60-65: the container, then one button per key in for-in order. */
  method ComposeButtons(props: seq<(string, Value)>) returns (code: string)
    ensures code == ButtonsCode(Some(Labels(props)))
  {
    code := ButtonsOpen;
    for i := 0 to |props|
      invariant code == ButtonsOpen + ButtonTags(Labels(props[..i]))
    {
      var key, caption := props[i].0, ToStr(props[i].1);
      assert Labels(props[..i + 1]) == Labels(props[..i]) + [(key, caption)];
      ButtonTagsSnoc(Labels(props[..i]), key, caption);
      code := code + ButtonTag(key, caption);
    }
    assert props[..|props|] == props;
    code := code + "</div>";
  }

  /** The style attribute of Dialog.js:67-74, built through the `styles` array and its join. */
  method ComposeStyle(width: Value, height: Value) returns (code: string)
    requires Truthy(width) ==> width.Num?
    requires Truthy(height) ==> height.Num?
    ensures code == StyleAttr(Size(width), Size(height))
  {
    code := "";
    if Truthy(width) || Truthy(height) {
      var styles: seq<string> := [];
      if Truthy(width) {
        styles := styles + ["--width: " + ToStr(width) + "px;"];
      }
      if Truthy(height) {
        styles := styles + ["--height: " + ToStr(height) + "px;"];
      }
      assert styles == StyleDecls(Size(width), Size(height));
      code := " style=\"" + Join(styles, " ") + "\"";
    }
  }

  /** The whole fragment, Dialog.js:54-79, in the order the source composes it. */
  method ComposeHtml(id: Value, modal: bool, content: Value, header: Value, buttons: Value, width: Value, height: Value)
    returns (html: string)
    requires Renderable(buttons, width, height)
    ensures html == Render(ViewOf(id, modal, content, header, buttons, width, height))
  {
    var headerCode, buttonsCode := "", "";
    if Truthy(header) {
      headerCode := "<header>" + ToStr(header) + HeaderTail;
    }
    if Truthy(buttons) {
      buttonsCode := ComposeButtons(buttons.props);
    }
    var styleCode := ComposeStyle(width, height);
    var idAttr := if Truthy(id) then "id=\"" + ToStr(id) + "\"" else "";
    html := "<div " + idAttr + DialogClassAttr + styleCode + ">" + headerCode + "<main>" + ToStr(content) + buttonsCode + MainClose;
    if modal {
      html := BlockerOpen + html + "</div>";
    }
  }

  /** The fragment starts with the blocker exactly when the dialog is modal. */
  lemma BlockerIffModal(v: View)
    ensures BlockerOpen <= Render(v) <==> v.blocker
  {
    if !v.blocker {
      var node := DialogNode(v);
      assert node[5] == (if v.id.Some? then 'i' else ' ');
      assert BlockerOpen[5] == 'c';
    }
  }

  /**
    The style attribute is there exactly when width or height is truthy, and holds the
    declaration of each truthy one, width first, separated by a space.
   */
  lemma StyleOnlyWithSize(width: Value, height: Value)
    requires Truthy(width) ==> width.Num?
    requires Truthy(height) ==> height.Num?
    ensures StyleAttr(Size(width), Size(height)) == "" <==> !Truthy(width) && !Truthy(height)
    ensures Truthy(width) && Truthy(height) ==>
      StyleAttr(Size(width), Size(height)) == " style=\"" + WidthDecl(width.n) + " " + HeightDecl(height.n) + "\""
    ensures Truthy(width) && !Truthy(height) ==> StyleAttr(Size(width), Size(height)) == " style=\"" + WidthDecl(width.n) + "\""
    ensures !Truthy(width) && Truthy(height) ==> StyleAttr(Size(width), Size(height)) == " style=\"" + HeightDecl(height.n) + "\""
  {
    if Truthy(width) && Truthy(height) {
      var decls := [WidthDecl(width.n), HeightDecl(height.n)];
      assert StyleDecls(Size(width), Size(height)) == decls;
      assert decls[1..] == [HeightDecl(height.n)];
      assert Join(decls, " ") == WidthDecl(width.n) + " " + HeightDecl(height.n);
    } else if Truthy(width) || Truthy(height) {
      assert StyleAttr(Size(width), Size(height))[0] == ' ';
    }
  }
}
