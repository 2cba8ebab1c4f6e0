/** The set of expanded folder ids kept by both tree views (the admin page and the
    notes sidebar): it starts with the three top-level folders, and a click on a
    folder's chevron toggles that folder's id. */
module ExpandedIds {
  /** `new Set(["root-projects", "root-certifications", "root-notes"])`. */
  const InitiallyExpanded: set<string> := {"root-projects", "root-certifications", "root-notes"}

  /** The set after `toggleExpanded(id)`: `id` removed if present, added otherwise. */
  function Toggled(s: set<string>, id: string): (r: set<string>)
    ensures id in r <==> id !in s
    ensures forall x :: x != id ==> (x in r <==> x in s)
  {
    if id in s then s - {id} else s + {id}
  }

  /** Toggling the same id twice gives back the set. */
  lemma ToggleTwice(s: set<string>, id: string)
    ensures Toggled(Toggled(s, id), id) == s
  {
    var t := Toggled(Toggled(s, id), id);
    forall x ensures x in t <==> x in s {
    }
  }

  /** Toggles of different ids commute. */
  lemma ToggleCommutes(s: set<string>, a: string, b: string)
    ensures Toggled(Toggled(s, a), b) == Toggled(Toggled(s, b), a)
  {
    var l, r := Toggled(Toggled(s, a), b), Toggled(Toggled(s, b), a);
    forall x ensures x in l <==> x in r {
    }
  }
}
