/**
 * The inline error messages of the form (`showError` / `clearError`), without the DOM:
 * the error nodes are a map from their `data-field-error` key to the text they show, and
 * the invalid marking of an input (its `aria-invalid` attribute and its `error` class) is
 * membership in a set of inputs.
 *
 * The source keys a node by `id || className` of the input, computed at each call. Because
 * `showError` adds the class `error` to the input after creating the node, an input without
 * an id is looked up under a different key by the next `clearError`. The `AsWritten`
 * members model that; `Key`, `ShowError` and `ClearError` model the evident intent, a key
 * that names the input whatever its error styling, and are what the form uses.
 */
module ErrorPresenter {

  /** An input as the markup declares it: its id and its class attribute (without `error`). */
  datatype Element = Element(id: string, className: string)

  /** The error nodes by key, and the inputs currently marked invalid. */
  datatype Registry = Registry(nodes: map<string, string>, invalid: set<Element>)

  const NoErrors: Registry := Registry(map[], {})

  // ------------------------------------------------------------ as written

  /** The class attribute of `e`, after `classList.add('error')` when it is marked invalid. */
  function ClassNameAsWritten(e: Element, marked: bool): string {
    if !marked then e.className
    else if e.className == "" then "error"
    else e.className + " error"
  }

  /** `field.id || field.className`, read from the input's current attributes: for an input
      without an id the key moves as soon as the input is marked invalid. */
  function KeyAsWritten(r: Registry, e: Element): (k: string)
    ensures e.id != "" ==> k == e.id
    ensures e.id == "" ==> (k == e.className <==> e !in r.invalid)
  {
    if e.id != "" then e.id
    else
      var k := ClassNameAsWritten(e, e in r.invalid);
      assert e in r.invalid ==> |k| > |e.className|;
      k
  }

  /** `showError` as written: the node under the current key shows `message`, `e` becomes
      marked, every other node is kept, and no other key gains a node. */
  function ShowErrorAsWritten(r: Registry, e: Element, message: string): (r': Registry)
    ensures KeyAsWritten(r, e) in r'.nodes && r'.nodes[KeyAsWritten(r, e)] == message
    ensures r'.invalid == r.invalid + {e}
    ensures r'.nodes.Keys == r.nodes.Keys + {KeyAsWritten(r, e)}
    ensures forall k :: k in r.nodes && k != KeyAsWritten(r, e) ==> r'.nodes[k] == r.nodes[k]
  {
    Registry(r.nodes[KeyAsWritten(r, e) := message], r.invalid + {e})
  }

  /** `clearError` as written: the node under the current key, if any, is removed, `e` is
      unmarked, every other node is kept, and no key gains a node. */
  function ClearErrorAsWritten(r: Registry, e: Element): (r': Registry)
    ensures KeyAsWritten(r, e) !in r'.nodes
    ensures r'.invalid == r.invalid - {e}
    ensures r'.nodes.Keys == r.nodes.Keys - {KeyAsWritten(r, e)}
    ensures forall k :: k in r'.nodes ==> r'.nodes[k] == r.nodes[k]
  {
    Registry(r.nodes - {KeyAsWritten(r, e)}, r.invalid - {e})
  }

  /** For an input without an id, clearing after showing leaves the shown message in place:
      the node was created under the plain class name and is looked for under the class name
      followed by ` error`. */
  lemma StaleErrorAsWritten(r: Registry, e: Element, message: string)
    requires e.id == "" && e !in r.invalid
    ensures var r' := ClearErrorAsWritten(ShowErrorAsWritten(r, e, message), e);
            e.className in r'.nodes && r'.nodes[e.className] == message && e !in r'.invalid
  {
    var shown := ShowErrorAsWritten(r, e, message);
    assert KeyAsWritten(shown, e) != e.className by {
      assert |KeyAsWritten(shown, e)| > |e.className|;
    }
  }

  /** The concrete case: an input `class="name-input"` without an id. */
  lemma StaleNameErrorExample()
    ensures var e := Element("", "name-input");
            var r := ClearErrorAsWritten(ShowErrorAsWritten(NoErrors, e, "The name is required"), e);
            r.nodes == map["name-input" := "The name is required"]
  {
    var e := Element("", "name-input");
    StaleErrorAsWritten(NoErrors, e, "The name is required");
    var r := ClearErrorAsWritten(ShowErrorAsWritten(NoErrors, e, "The name is required"), e);
    assert r.nodes.Keys == {"name-input"};
  }

  // ------------------------------------------------------------ corrected

  /** The key of the error node of `e`: its id, or else its class attribute as declared. It
      is the key the source computes for `e` as long as `e` is not marked invalid. */
  function Key(e: Element): (k: string)
    ensures forall r: Registry :: e !in r.invalid ==> k == KeyAsWritten(r, e)
  {
    if e.id != "" then e.id else e.className
  }

  /** `showError`: exactly one node carries the key of `e`, it shows `message`, `e` is marked
      invalid, and no other node changed. */
  function ShowError(r: Registry, e: Element, message: string): (r': Registry)
    ensures Key(e) in r'.nodes && r'.nodes[Key(e)] == message
    ensures r'.invalid == r.invalid + {e}
    ensures r'.nodes.Keys == r.nodes.Keys + {Key(e)}
    ensures forall k :: k in r.nodes && k != Key(e) ==> r'.nodes[k] == r.nodes[k]
  {
    Registry(r.nodes[Key(e) := message], r.invalid + {e})
  }

  /** `clearError`: no node carries the key of `e` any more, `e` is no longer marked invalid,
      and every other node is kept. */
  function ClearError(r: Registry, e: Element): (r': Registry)
    ensures r'.nodes.Keys == r.nodes.Keys - {Key(e)}
    ensures r'.invalid == r.invalid - {e}
    ensures forall k :: k in r'.nodes ==> r'.nodes[k] == r.nodes[k]
  {
    Registry(r.nodes - {Key(e)}, r.invalid - {e})
  }

  /** Showing twice keeps one node, with the second message. */
  lemma ShowErrorReplaces(r: Registry, e: Element, m1: string, m2: string)
    ensures ShowError(ShowError(r, e, m1), e, m2) == ShowError(r, e, m2)
  {
  }

  /** `clearError` on an input without a node and without the invalid mark changes nothing. */
  lemma ClearErrorNoOp(r: Registry, e: Element)
    requires Key(e) !in r.nodes && e !in r.invalid
    ensures ClearError(r, e) == r
  {
    assert r.nodes - {Key(e)} == r.nodes;
  }

  /** Clearing undoes showing: clearing after showing is the same as only clearing. */
  lemma ClearAfterShow(r: Registry, e: Element, message: string)
    ensures ClearError(ShowError(r, e, message), e) == ClearError(r, e)
    ensures Key(e) !in ClearError(ShowError(r, e, message), e).nodes
  {
    assert r.nodes[Key(e) := message] - {Key(e)} == r.nodes - {Key(e)};
  }

  // ------------------------------------------------------------ the form's three inputs

  /** The name, e-mail and GitHub inputs. */
  datatype Inputs = Inputs(name: Element, email: Element, github: Element)

  function Members(ins: Inputs): set<Element> {
    {ins.name, ins.email, ins.github}
  }

  function Keys(ins: Inputs): set<string> {
    {Key(ins.name), Key(ins.email), Key(ins.github)}
  }

  /** The three inputs have three different keys. */
  predicate DistinctKeys(ins: Inputs) {
    Key(ins.name) != Key(ins.email) && Key(ins.name) != Key(ins.github) && Key(ins.email) != Key(ins.github)
  }

  predicate MarkedIffShown(r: Registry, e: Element) {
    e in r.invalid <==> Key(e) in r.nodes
  }

  /** The registry holds nodes only for the three inputs, and an input is marked invalid
      exactly when its node exists. */
  predicate Tracks(r: Registry, ins: Inputs) {
    && r.invalid <= Members(ins)
    && r.nodes.Keys <= Keys(ins)
    && MarkedIffShown(r, ins.name) && MarkedIffShown(r, ins.email) && MarkedIffShown(r, ins.github)
  }

  lemma ShowErrorTracks(r: Registry, ins: Inputs, e: Element, message: string)
    requires DistinctKeys(ins) && Tracks(r, ins) && e in Members(ins)
    ensures Tracks(ShowError(r, e, message), ins)
  {
  }

  lemma ClearErrorTracks(r: Registry, ins: Inputs, e: Element)
    requires DistinctKeys(ins) && Tracks(r, ins) && e in Members(ins)
    ensures Tracks(ClearError(r, e), ins)
  {
  }
}
