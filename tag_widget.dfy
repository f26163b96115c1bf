/** The blog's tag input widget: a text input whose HTML attributes start from two defaults
    that the caller's attributes extend or override. */
module TagWidget {
  import opened Wrappers

  const DefaultClass := "tag-input-field"
  const DefaultPlaceholder := "Enter tags separated by commas"

  function DefaultAttrs(): map<string, string> {
    map["class" := DefaultClass, "placeholder" := DefaultPlaceholder]
  }

  /** Python's truth test on an optional dictionary: `None` and `{}` are false. */
  predicate Truthy(attrs: Option<map<string, string>>) {
    attrs.Some? && |attrs.value| > 0
  }

  /** `TagWidget.__init__`: builds the default dictionary, then `update`s it with the
      caller's attributes when there are any. */
  method MergeAttrs(attrs: Option<map<string, string>>) returns (merged: map<string, string>)
    ensures !Truthy(attrs) ==> merged == DefaultAttrs()
    ensures Truthy(attrs) ==> merged.Keys == DefaultAttrs().Keys + attrs.value.Keys
    ensures Truthy(attrs) ==> forall k :: k in attrs.value ==> merged[k] == attrs.value[k]
    ensures forall k :: k in DefaultAttrs() && (attrs.None? || k !in attrs.value) ==> merged[k] == DefaultAttrs()[k]
  {
    var defaultAttrs := map[];
    defaultAttrs := defaultAttrs["class" := DefaultClass];
    defaultAttrs := defaultAttrs["placeholder" := DefaultPlaceholder];
    if attrs.Some? && |attrs.value| > 0 {
      defaultAttrs := defaultAttrs + attrs.value;
    }
    merged := defaultAttrs;
  }

  /** The widget keeps the merged attributes it was built with. */
  class Widget {
    var attrs: map<string, string>

    constructor (attrs: Option<map<string, string>>)
      ensures !Truthy(attrs) ==> this.attrs == DefaultAttrs()
      ensures Truthy(attrs) ==> this.attrs.Keys == DefaultAttrs().Keys + attrs.value.Keys
      ensures Truthy(attrs) ==> forall k :: k in attrs.value ==> this.attrs[k] == attrs.value[k]
      ensures forall k :: k in DefaultAttrs() && (attrs.None? || k !in attrs.value) ==> this.attrs[k] == DefaultAttrs()[k]
    {
      var merged := MergeAttrs(attrs);
      this.attrs := merged;
    }
  }
}
