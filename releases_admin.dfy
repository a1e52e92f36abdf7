/**
 * The releases admin screen's dispatcher: a registry of views by slug, the
 * view a request asks for (the `view` query argument) and which view is
 * shown.
 *
 * The admin tab dispatcher is not part of this model: whether the releases
 * tab is the current tab is a parameter. Controllers are opaque values.
 */
module ReleasesAdmin {
  import opened Common

  /** A registered view controller, told apart by its name. */
  datatype Controller = Controller(name: string)

  /** The view shown when the request names no registered view. */
  const DefaultView := "list"

  /** The static view registry, shared by every dispatcher. */
  class Registry {
    var views: map<string, Controller>

    constructor ()
      ensures views == map[]
    {
      views := map[];
    }

    /**
     * `get_current_view`: the requested view when it is registered,
     * otherwise `list` (whether or not `list` is registered).
     */
    function CurrentView(requested: Option<string>): (v: string)
      reads this
      ensures v == DefaultView || v in views
      ensures requested.Some? && requested.value in views <==> v in views && requested == Some(v)
      ensures requested.None? || requested.value !in views ==> v == DefaultView
    {
      if requested.Some? && requested.value in views then requested.value else DefaultView
    }

    /** `register_view`: the slug now maps to the controller, replacing any earlier one. */
    method RegisterView(slug: string, controller: Controller)
      modifies this
      ensures views == old(views)[slug := controller]
      ensures forall s :: s in old(views) && s != slug ==> s in views && views[s] == old(views)[s]
      ensures CurrentView(Some(slug)) == slug
    {
      views := views[slug := controller];
    }

    /**
     * `is_current_view`: false off the releases tab and for unregistered
     * views; otherwise whether the view is the current one.
     */
    function IsCurrentView(view: string, onReleasesTab: bool, requested: Option<string>): (b: bool)
      reads this
      ensures b ==> onReleasesTab && view in views
      ensures b <==> onReleasesTab && view in views &&
                     (requested == Some(view) || (view == DefaultView && (requested.None? || requested.value !in views)))
    {
      if !onReleasesTab then false
      else if view !in views then false
      else view == CurrentView(requested)
    }

    /** At most one view is current for a request. */
    lemma OneCurrentView(a: string, b: string, onReleasesTab: bool, requested: Option<string>)
      requires IsCurrentView(a, onReleasesTab, requested) && IsCurrentView(b, onReleasesTab, requested)
      ensures a == b
    {
    }
  }

  /** A dispatcher fixes the view when it is made. */
  class Dispatcher {
    const view: string

    constructor (registry: Registry, requested: Option<string>)
      ensures view == registry.CurrentView(requested)
    {
      view := registry.CurrentView(requested);
    }

    /**
     * `dispatch`: the controller registered for the view fixed at
     * construction is rendered; when none is registered (an unregistered
     * `list`) there is nothing to render, and the source fails.
     */
    method Dispatch(registry: Registry) returns (rendered: Option<Controller>)
      ensures rendered.Some? <==> view in registry.views
      ensures rendered.Some? ==> rendered.value == registry.views[view]
    {
      if view in registry.views {
        rendered := Some(registry.views[view]);
      } else {
        rendered := None;
      }
    }
  }
}
