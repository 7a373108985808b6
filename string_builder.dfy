/**
 * The output buffer the serializers append to. Only appending is modelled:
 * that is all the serializers do with it.
 */
module Builder {

  /** A character buffer that grows at its end. */
  class StringBuilder {
    var contents: string

    constructor ()
      ensures contents == []
    {
      contents := [];
    }

    /** Appends `s` after the current contents. */
    method Append(s: string)
      modifies this
      ensures contents == old(contents) + s
    {
      contents := contents + s;
    }
  }
}
