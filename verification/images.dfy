/**
 The list of images the dynamic loader has mapped, as the three queries see
 it, and the lookup of an image by the last component of its path.
 */
module Images {
  import opened Bytes
  import opened Wrappers
  import opened CString

  /**
   One entry of the loader's image list: its path and, when the loader can
   hand one out, the bytes starting at its Mach-O header.
   */
  datatype LoadedImage = LoadedImage(path: string, header: Option<seq<Byte>>)

  /** `_dyld_get_image_header(index)`: NULL for an index past the end of the list. */
  function ImageHeader(images: seq<LoadedImage>, index: uint32): Option<seq<Byte>>
  {
    if index < |images| then images[index].header else None
  }

  predicate NameMatches(images: seq<LoadedImage>, i: nat, imageName: string)
    requires i < |images|
  {
    Basename(images[i].path) == imageName
  }

  /**
   `dylib_find_image_name_index`: scans the images in index order and
   reports the first whose path's last component is imageName. imageIndex
   is the caller's variable; it comes back unchanged when nothing matches.
   The name and the paths are C strings, which end at their first NUL, so
   none of them holds one.
   */
  method FindImageNameIndex(images: seq<LoadedImage>, imageName: string, imageIndex: uint32)
    returns (found: bool, index: uint32)
    requires |images| <= MaxUint32
    requires '\0' !in imageName
    requires forall i :: 0 <= i < |images| ==> '\0' !in images[i].path
    ensures found <==> exists i :: 0 <= i < |images| && NameMatches(images, i, imageName)
    ensures found ==> index < |images| && NameMatches(images, index, imageName)
    ensures found ==> forall j :: 0 <= j < index ==> !NameMatches(images, j, imageName)
    ensures !found ==> index == imageIndex
  {
    var imageCount: uint32 := |images|;
    var i: uint32 := 0;
    while i < imageCount
      invariant i <= imageCount
      invariant forall j :: 0 <= j < i ==> !NameMatches(images, j, imageName)
    {
      var name := Basename(images[i].path);
      if name != imageName {
        assert !NameMatches(images, i, imageName);
        i := i + 1;
        continue;
      }
      assert NameMatches(images, i, imageName);
      return true, i;
    }
    return false, imageIndex;
  }
}
