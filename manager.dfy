/**
 * The stack bookkeeping of HdrCreationManager
 * (HdrWizard/HdrCreationManager.cpp): admitting loaded inputs, the exposure
 * times, cropping and shifting the stack, and the two anti-ghosting
 * entry points on the float stack.
 */
module Manager {
  import opened Hsl
  import opened Pixels
  import Stats
  import opened Patches
  import opened Blending
  import opened Raster
  import opened Calibration
  import opened Ghosting
  import opened AntiGhosting

  /** The kind of the stack: not known yet, 8-bit images, or float frames. */
  datatype InputType = UnknownInput | LdrInput | MdrInput

  /** A slot of a pointer list: NULL, or the object it points to. */
  datatype Option<T> = None | Some(value: T)

  /** An entry of m_data; the frame, preview and average luminance loaded for it are not part of this model. */
  datatype Item = Item(filename: string)

  /** One pair of alignment offsets, horizontal then vertical. */
  datatype Offset = Offset(dx: int, dy: int)

  /** QFileInfo::fileName: the part of a path after its last '/'. */
  function BaseName(path: string): (name: string)
    ensures '/' !in name && |name| <= |path|
  {
    if path == [] then []
    else if path[|path| - 1] == '/' then []
    else BaseName(path[..|path| - 1]) + [path[|path| - 1]]
  }

  /** The file name is the tail of the path, and only a '/' stops it short. */
  lemma {:induction false} BaseNameIsTail(path: string)
    ensures BaseName(path) == path[|path| - |BaseName(path)|..]
    ensures |BaseName(path)| < |path| ==> path[|path| - |BaseName(path)| - 1] == '/'
  {
    if path != [] && path[|path| - 1] != '/' {
      var init := path[..|path| - 1];
      BaseNameIsTail(init);
      assert path[|path| - |BaseName(path)|..] == init[|init| - |BaseName(init)|..] + [path[|path| - 1]];
    }
  }

  /** A path without '/' is its own file name. */
  lemma {:induction false} BaseNameOfName(path: string)
    requires '/' !in path
    ensures BaseName(path) == path
  {
    if path != [] {
      BaseNameOfName(path[..|path| - 1]);
      assert path == path[..|path| - 1] + [path[|path| - 1]];
    }
  }

  /** The line newResult adds to filesLackingExif for a file without exposure data. */
  function ExifLine(path: string): string
  {
    "<li>" + BaseName(path) + "</li>"
  }

  /** Every slot of a pointer list of images holds a valid image. */
  predicate AllValid(l: seq<Option<Picture>>)
  {
    forall i :: 0 <= i < |l| ==> l[i].Some? && Valid(l[i].value)
  }

  /** Every loaded image of the list is w x h: ldrsHaveSameSize. */
  predicate SameLdrSize(l: seq<Option<Picture>>, w: int, h: int)
  {
    forall i :: 0 <= i < |l| && l[i].Some? ==> l[i].value.width == w && l[i].value.height == h
  }

  /** Every item whose three channels are loaded is w x h: mdrsHaveSameSize. */
  predicate SameMdrSize(Rs: seq<array2?<real>>, Gs: seq<array2?<real>>, Bs: seq<array2?<real>>, w: int, h: int)
    requires |Gs| == |Rs| && |Bs| == |Rs|
  {
    forall i :: 0 <= i < |Rs| && Rs[i] != null && Gs[i] != null && Bs[i] != null ==>
      Rs[i].Length0 == w && Rs[i].Length1 == h && Gs[i].Length0 == w && Gs[i].Length1 == h &&
      Bs[i].Length0 == w && Bs[i].Length1 == h
  }

  /** Every channel of the list is loaded. */
  predicate Loaded(l: seq<array2?<real>>)
  {
    forall i :: 0 <= i < |l| ==> l[i] != null
  }

  /** The loaded channels, as non-null references. */
  function Present(l: seq<array2?<real>>): (r: seq<array2<real>>)
    requires Loaded(l)
    ensures |r| == |l| && forall i :: 0 <= i < |l| ==> r[i] == l[i]
  {
    if l == [] then [] else Present(l[..|l| - 1]) + [l[|l| - 1]]
  }

  /** Every image of the list cut to the rectangle (QImage::copy). */
  function Cropped(l: seq<Option<Picture>>, ca: Rect): (r: seq<Option<Picture>>)
    requires AllValid(l) && 0 < ca.width && 0 < ca.height
    ensures |r| == |l| && AllValid(r)
    ensures forall i :: 0 <= i < |l| ==> r[i] == Some(Copy(l[i].value, ca))
  {
    seq(|l|, i requires 0 <= i < |l| && AllValid(l) => Some(Copy(l[i].value, ca)))
  }

  /** After cropping, every image has the rectangle's size and holds the pixels the rectangle covered. */
  lemma CroppedContents(l: seq<Option<Picture>>, ca: Rect, i: int, x: int, y: int)
    requires AllValid(l) && 0 < ca.width && 0 < ca.height && 0 <= i < |l|
    requires 0 <= x < ca.width && 0 <= y < ca.height
    ensures Cropped(l, ca)[i].value.width == ca.width && Cropped(l, ca)[i].value.height == ca.height
    ensures PixelOf(Cropped(l, ca)[i].value, x, y) == CopiedAt(l[i].value, ca, x, y)
  {
  }

  /** A list of transparent masks stays a list of transparent masks, of the rectangle's size. */
  lemma CroppedBlanks(l: seq<Option<Picture>>, w: int, h: int, ca: Rect)
    requires 0 <= w && 0 <= h && 0 < ca.width && 0 < ca.height
    requires forall i :: 0 <= i < |l| ==> l[i] == Some(Blank(w, h))
    ensures AllValid(l)
    ensures forall i :: 0 <= i < |l| ==> Cropped(l, ca)[i] == Some(Blank(ca.width, ca.height))
  {
    forall i | 0 <= i < |l|
      ensures Cropped(l, ca)[i] == Some(Blank(ca.width, ca.height))
    {
      CopyOfBlank(w, h, ca);
    }
  }

  /** A zero offset leaves a picture as it is: skipping it changes nothing. */
  lemma ShiftByZero(p: Picture)
    requires Valid(p)
    ensures ShiftPicture(p, 0, 0) == p
  {
    var q := ShiftPicture(p, 0, 0);
    forall y | 0 <= y < p.height
      ensures q.argb[y] == p.argb[y]
    {
    }
  }

  /** The images of a list whose every slot holds one. */
  function Pictures(l: seq<Option<Picture>>): (r: seq<Picture>)
    requires AllValid(l)
    ensures |r| == |l| && forall i :: 0 <= i < |l| ==> r[i] == l[i].value
  {
    seq(|l|, i requires 0 <= i < |l| && AllValid(l) => l[i].value)
  }

  /** k copies of v. */
  function Repeat<T>(v: T, k: nat): (r: seq<T>)
    ensures |r| == k && forall i :: 0 <= i < k ==> r[i] == v
  {
    if k == 0 then [] else Repeat(v, k - 1) + [v]
  }

  /**
   * One step of the take-first, append-its-copy rotation cropLDR, cropMDR
   * and cropAgMasks use: after k steps the list is the k uncropped tail
   * followed by the cropped head.
   */
  lemma RotateCropped(l: seq<Option<Picture>>, k: int, ca: Rect)
    requires AllValid(l) && 0 < ca.width && 0 < ca.height && 0 <= k < |l|
    ensures (l[k..] + Cropped(l[..k], ca))[0] == l[k]
    ensures (l[k..] + Cropped(l[..k], ca))[1..] + [Some(Copy(l[k].value, ca))] == l[k + 1..] + Cropped(l[..k + 1], ca)
  {
    assert Cropped(l[..k + 1], ca) == Cropped(l[..k], ca) + [Some(Copy(l[k].value, ca))];
  }

  /** One step of the rotation that replaces every mask by the same one. */
  lemma RotateRepeat<T>(l: seq<T>, k: nat, v: T)
    requires k < |l|
    ensures (l[k..] + Repeat(v, k))[1..] + [v] == l[k + 1..] + Repeat(v, k + 1)
  {
  }

  /** The size cropMDR gives the float channels: x_br - x_ul by y_br - y_ul from QRect::getCoords. */
  function ChannelCropAsWritten(ca: Rect): (size: (int, int))
  {
    (Right(ca) - ca.left, Bottom(ca) - ca.top)
  }

  /**
   * The channels cropped as written lose the selection's last column and
   * row, while previews and masks (QImage::copy) keep the selection's size.
   */
  lemma ChannelCropMismatch(p: Picture, ca: Rect)
    requires Valid(p) && 0 < ca.width && 0 < ca.height
    ensures ChannelCropAsWritten(ca) == (ca.width - 1, ca.height - 1)
    ensures Copy(p, ca).width == ChannelCropAsWritten(ca).0 + 1
    ensures Copy(p, ca).height == ChannelCropAsWritten(ca).1 + 1
  {
  }

  /** The stand-in for pfs::cut: a fresh w x h channel (its contents are not modelled). */
  method Cut(w: int, h: int) returns (to: array2<real>)
    requires 0 <= w && 0 <= h
    ensures fresh(to) && to.Length0 == w && to.Length1 == h
  {
    to := new real[w, h];
  }

  /** The stand-in for pfs::shift: a fresh channel of the same size (its contents are not modelled). */
  method Shift(from: array2<real>) returns (to: array2<real>)
    ensures fresh(to) && to.Length0 == from.Length0 && to.Length1 == from.Length1
  {
    to := new real[from.Length0, from.Length1];
  }

  class HdrCreationManager {
    var inputType: InputType
    var loadingError: bool
    var runningThreads: int
    var processedFiles: int
    const fromCommandLine: bool
    var fileList: seq<string>
    var filesToRemove: seq<string>
    var expotimes: seq<ExpoTime>
    var filesLackingExif: seq<string>
    var ldrImages: seq<Option<Picture>>
    var mdrImages: seq<Option<Picture>>
    var masks: seq<Option<Picture>>
    var listR: seq<array2?<real>>
    var listG: seq<array2?<real>>
    var listB: seq<array2?<real>>
    var mdrWidth: int
    var mdrHeight: int
    var data: seq<Item>

    /** Every per-file list has one slot per file of fileList. */
    predicate Sized()
      reads this
    {
      |filesToRemove| == |fileList| && |expotimes| == |fileList| &&
      |ldrImages| == |fileList| && |mdrImages| == |fileList| && |masks| == |fileList| &&
      |listR| == |fileList| && |listG| == |fileList| && |listB| == |fileList|
    }

    /** A fresh manager: no input type, no error, no threads, no files. */
    constructor(fromCommandLine: bool)
      ensures this.fromCommandLine == fromCommandLine
      ensures inputType == UnknownInput && !loadingError && runningThreads == 0 && processedFiles == 0
      ensures mdrWidth == 0 && mdrHeight == 0
      ensures fileList == [] && filesToRemove == [] && expotimes == [] && filesLackingExif == []
      ensures ldrImages == [] && mdrImages == [] && masks == [] && listR == [] && listG == [] && listB == []
      ensures data == [] && Sized()
    {
      this.fromCommandLine := fromCommandLine;
      inputType := UnknownInput;
      loadingError := false;
      runningThreads := 0;
      processedFiles := 0;
      mdrWidth, mdrHeight := 0, 0;
      fileList, filesToRemove, expotimes, filesLackingExif := [], [], [], [];
      ldrImages, mdrImages, masks := [], [], [];
      listR, listG, listB := [], [], [];
      data := [];
    }

    /**
     * newResult: one loader thread fewer, one file more; a renamed file is
     * scheduled for removal, the exposure time is stored, and a file without
     * one gets a line in filesLackingExif.
     */
    method NewResult(index: int, expotime: ExpoTime, newfname: string)
      requires Sized() && 0 <= index < |fileList|
      modifies this`runningThreads, this`processedFiles, this`filesToRemove, this`expotimes, this`filesLackingExif
      ensures Sized()
      ensures runningThreads == old(runningThreads) - 1 && processedFiles == old(processedFiles) + 1
      ensures filesToRemove == if fileList[index] != newfname
                               then old(filesToRemove)[index := newfname] else old(filesToRemove)
      ensures expotimes == old(expotimes)[index := expotime]
      ensures filesLackingExif == old(filesLackingExif) + if expotime == Missing then [ExifLine(fileList[index])] else []
    {
      runningThreads := runningThreads - 1;
      processedFiles := processedFiles + 1;
      if fileList[index] != newfname {
        filesToRemove := filesToRemove[index := newfname];
      }
      expotimes := expotimes[index := expotime];
      if expotimes[index] == Missing {
        filesLackingExif := filesLackingExif + [ExifLine(fileList[index])];
      }
    }

    /** ldrsHaveSameSize: every loaded 8-bit image is w x h. */
    method LdrsHaveSameSize(w: int, h: int) returns (same: bool)
      ensures same == SameLdrSize(ldrImages, w, h)
    {
      for i := 0 to |ldrImages|
        invariant SameLdrSize(ldrImages[..i], w, h)
      {
        if ldrImages[i].Some? {
          var p := ldrImages[i].value;
          if p.width != w || p.height != h {
            return false;
          }
        }
        assert ldrImages[..i + 1] == ldrImages[..i] + [ldrImages[i]];
      }
      assert ldrImages[..|ldrImages|] == ldrImages;
      return true;
    }

    /** mdrsHaveSameSize: every item whose three channels are loaded is w x h. */
    method MdrsHaveSameSize(w: int, h: int) returns (same: bool)
      requires |listG| == |listR| && |listB| == |listR|
      ensures same == SameMdrSize(listR, listG, listB, w, h)
    {
      for i := 0 to |listR|
        invariant SameMdrSize(listR[..i], listG[..i], listB[..i], w, h)
      {
        var r, g, b := listR[i], listG[i], listB[i];
        if r != null && g != null && b != null {
          if r.Length0 != w || r.Length1 != h || g.Length0 != w || g.Length1 != h ||
             b.Length0 != w || b.Length1 != h {
            assert !SameMdrSize(listR, listG, listB, w, h) by {
              assert listR[i] == r && listG[i] == g && listB[i] == b;
            }
            return false;
          }
        }
        assert listR[..i + 1] == listR[..i] + [r];
        assert listG[..i + 1] == listG[..i] + [g];
        assert listB[..i + 1] == listB[..i] + [b];
      }
      assert listR[..|listR|] == listR && listG[..|listR|] == listG && listB[..|listR|] == listB;
      return true;
    }

    /**
     * ldrReady: after an earlier error nothing happens; an 8-bit image after
     * float ones, or one of another size than those loaded, sets the error;
     * otherwise the image (and, outside the command line, a transparent mask
     * of its size) fills slot `index` and newResult runs.
     */
    method LdrReady(newImage: Picture, index: int, expotime: ExpoTime, newfname: string)
      requires Sized() && 0 <= index < |fileList| && Valid(newImage)
      modifies this`loadingError, this`inputType, this`ldrImages, this`masks
      modifies this`runningThreads, this`processedFiles, this`filesToRemove, this`expotimes, this`filesLackingExif
      ensures Sized()
      ensures old(loadingError) ==> unchanged(this)
      ensures !old(loadingError) && old(inputType) == MdrInput ==> loadingError && inputType == MdrInput
      ensures !old(loadingError) && old(inputType) != MdrInput ==>
                inputType == LdrInput &&
                (loadingError <==> !old(SameLdrSize(ldrImages, newImage.width, newImage.height)))
      ensures !old(loadingError) && loadingError ==>
                unchanged(this`ldrImages, this`masks, this`runningThreads, this`processedFiles)
      ensures !old(loadingError) && loadingError ==>
                unchanged(this`filesToRemove, this`expotimes, this`filesLackingExif)
      ensures !old(loadingError) && old(inputType) != MdrInput && !loadingError ==>
                ldrImages == old(ldrImages)[index := Some(newImage)] &&
                masks == (if fromCommandLine then old(masks)
                          else old(masks)[index := Some(Blank(newImage.width, newImage.height))]) &&
                expotimes == old(expotimes)[index := expotime] && processedFiles == old(processedFiles) + 1 &&
                runningThreads == old(runningThreads) - 1
      ensures !old(loadingError) && old(inputType) != MdrInput && !loadingError ==>
                filesToRemove == (if fileList[index] != newfname then old(filesToRemove)[index := newfname]
                                  else old(filesToRemove)) &&
                filesLackingExif == old(filesLackingExif) + (if expotime == Missing then [ExifLine(fileList[index])] else [])
    {
      if loadingError {
        return;
      }
      if inputType == MdrInput {
        loadingError := true;
        return;
      }
      inputType := LdrInput;
      var same := LdrsHaveSameSize(newImage.width, newImage.height);
      if !same {
        loadingError := true;
        return;
      }
      StoreLdr(newImage, index);
      NewResult(index, expotime, newfname);
    }

    /** The accepting branch of ldrReady: the image, and outside the command line its mask, fill slot `index`. */
    method StoreLdr(newImage: Picture, index: int)
      requires Sized() && 0 <= index < |fileList| && Valid(newImage)
      modifies this`ldrImages, this`masks
      ensures Sized()
      ensures ldrImages == old(ldrImages)[index := Some(newImage)]
      ensures masks == if fromCommandLine then old(masks) else old(masks)[index := Some(Blank(newImage.width, newImage.height))]
    {
      ldrImages := ldrImages[index := Some(newImage)];
      if !fromCommandLine {
        masks := masks[index := Some(Blank(newImage.width, newImage.height))];
      }
    }

    /**
     * mdrReady: after an earlier error nothing happens; a float frame after
     * 8-bit images, or one of another size than those loaded, sets the error;
     * otherwise (outside the command line) its preview and a transparent mask
     * of its size fill slot `index`, the stack size is recorded, its channels
     * fill slot `index` and newResult runs. `preview` stands in for
     * fromHDRPFStoQImage of the frame.
     */
    method MdrReady(R: array2<real>, G: array2<real>, B: array2<real>, preview: Picture,
                    index: int, expotime: ExpoTime, newfname: string)
      requires Sized() && 0 <= index < |fileList| && Fits(R, G, B)
      modifies this`loadingError, this`inputType, this`mdrImages, this`masks, this`mdrWidth, this`mdrHeight
      modifies this`listR, this`listG, this`listB
      modifies this`runningThreads, this`processedFiles, this`filesToRemove, this`expotimes, this`filesLackingExif
      ensures Sized()
      ensures old(loadingError) ==> unchanged(this)
      ensures !old(loadingError) && old(inputType) == LdrInput ==> loadingError && inputType == LdrInput
      ensures !old(loadingError) && old(inputType) != LdrInput ==>
                inputType == MdrInput &&
                (loadingError <==> !old(SameMdrSize(listR, listG, listB, R.Length0, R.Length1)))
      ensures !old(loadingError) && loadingError ==>
                unchanged(this`listR, this`listG, this`listB, this`mdrImages, this`masks, this`mdrWidth, this`mdrHeight)
      ensures !old(loadingError) && loadingError ==>
                unchanged(this`runningThreads, this`processedFiles, this`filesToRemove, this`expotimes, this`filesLackingExif)
      ensures !old(loadingError) && old(inputType) != LdrInput && !loadingError ==>
                listR == old(listR)[index := R] && listG == old(listG)[index := G] && listB == old(listB)[index := B] &&
                mdrWidth == R.Length0 && mdrHeight == R.Length1 &&
                mdrImages == (if fromCommandLine then old(mdrImages) else old(mdrImages)[index := Some(preview)]) &&
                masks == (if fromCommandLine then old(masks) else old(masks)[index := Some(Blank(R.Length0, R.Length1))]) &&
                expotimes == old(expotimes)[index := expotime] && processedFiles == old(processedFiles) + 1 &&
                runningThreads == old(runningThreads) - 1
      ensures !old(loadingError) && old(inputType) != LdrInput && !loadingError ==>
                filesToRemove == (if fileList[index] != newfname then old(filesToRemove)[index := newfname]
                                  else old(filesToRemove)) &&
                filesLackingExif == old(filesLackingExif) + (if expotime == Missing then [ExifLine(fileList[index])] else [])
    {
      if loadingError {
        return;
      }
      if inputType == LdrInput {
        loadingError := true;
        return;
      }
      AdmitMdr(R, G, B, preview, index, expotime, newfname);
    }

    /**
     * mdrReady once no error is pending and no 8-bit image was loaded: the
     * stack becomes a float stack, and the frame is admitted when its size
     * matches the frames already loaded.
     */
    method AdmitMdr(R: array2<real>, G: array2<real>, B: array2<real>, preview: Picture,
                    index: int, expotime: ExpoTime, newfname: string)
      requires Sized() && 0 <= index < |fileList| && Fits(R, G, B)
      modifies this`loadingError, this`inputType, this`mdrImages, this`masks, this`mdrWidth, this`mdrHeight
      modifies this`listR, this`listG, this`listB
      modifies this`runningThreads, this`processedFiles, this`filesToRemove, this`expotimes, this`filesLackingExif
      ensures Sized() && inputType == MdrInput
      ensures loadingError == (old(loadingError) || !old(SameMdrSize(listR, listG, listB, R.Length0, R.Length1)))
      ensures !old(SameMdrSize(listR, listG, listB, R.Length0, R.Length1)) ==>
                unchanged(this`listR, this`listG, this`listB, this`mdrImages, this`masks, this`mdrWidth, this`mdrHeight)
      ensures !old(SameMdrSize(listR, listG, listB, R.Length0, R.Length1)) ==>
                unchanged(this`runningThreads, this`processedFiles, this`filesToRemove, this`expotimes, this`filesLackingExif)
      ensures old(SameMdrSize(listR, listG, listB, R.Length0, R.Length1)) ==>
                listR == old(listR)[index := R] && listG == old(listG)[index := G] && listB == old(listB)[index := B] &&
                mdrWidth == R.Length0 && mdrHeight == R.Length1 &&
                mdrImages == (if fromCommandLine then old(mdrImages) else old(mdrImages)[index := Some(preview)]) &&
                masks == (if fromCommandLine then old(masks) else old(masks)[index := Some(Blank(R.Length0, R.Length1))]) &&
                expotimes == old(expotimes)[index := expotime] && processedFiles == old(processedFiles) + 1 &&
                runningThreads == old(runningThreads) - 1
      ensures old(SameMdrSize(listR, listG, listB, R.Length0, R.Length1)) ==>
                filesToRemove == (if fileList[index] != newfname then old(filesToRemove)[index := newfname]
                                  else old(filesToRemove)) &&
                filesLackingExif == old(filesLackingExif) + (if expotime == Missing then [ExifLine(fileList[index])] else [])
    {
      inputType := MdrInput;
      var same := MdrsHaveSameSize(R.Length0, R.Length1);
      if !same {
        loadingError := true;
        return;
      }
      AcceptMdr(R, G, B, preview, index, expotime, newfname);
    }

    /** The frame of slot `index` is admitted: it is stored and newResult runs. */
    method AcceptMdr(R: array2<real>, G: array2<real>, B: array2<real>, preview: Picture,
                     index: int, expotime: ExpoTime, newfname: string)
      requires Sized() && 0 <= index < |fileList| && Fits(R, G, B)
      modifies this`mdrImages, this`masks, this`mdrWidth, this`mdrHeight, this`listR, this`listG, this`listB
      modifies this`runningThreads, this`processedFiles, this`filesToRemove, this`expotimes, this`filesLackingExif
      ensures Sized()
      ensures listR == old(listR)[index := R] && listG == old(listG)[index := G] && listB == old(listB)[index := B]
      ensures mdrWidth == R.Length0 && mdrHeight == R.Length1
      ensures mdrImages == if fromCommandLine then old(mdrImages) else old(mdrImages)[index := Some(preview)]
      ensures masks == if fromCommandLine then old(masks) else old(masks)[index := Some(Blank(R.Length0, R.Length1))]
      ensures expotimes == old(expotimes)[index := expotime]
      ensures processedFiles == old(processedFiles) + 1 && runningThreads == old(runningThreads) - 1
      ensures filesToRemove == if fileList[index] != newfname then old(filesToRemove)[index := newfname] else old(filesToRemove)
      ensures filesLackingExif == old(filesLackingExif) + if expotime == Missing then [ExifLine(fileList[index])] else []
    {
      StoreMdr(R, G, B, preview, index);
      NewResult(index, expotime, newfname);
    }

    /** The admitting half of mdrReady: preview, mask, stack size and channels of slot `index`. */
    method StoreMdr(R: array2<real>, G: array2<real>, B: array2<real>, preview: Picture, index: int)
      requires Sized() && 0 <= index < |fileList| && Fits(R, G, B)
      modifies this`mdrImages, this`masks, this`mdrWidth, this`mdrHeight, this`listR, this`listG, this`listB
      ensures Sized()
      ensures listR == old(listR)[index := R] && listG == old(listG)[index := G] && listB == old(listB)[index := B]
      ensures mdrWidth == R.Length0 && mdrHeight == R.Length1
      ensures mdrImages == if fromCommandLine then old(mdrImages) else old(mdrImages)[index := Some(preview)]
      ensures masks == if fromCommandLine then old(masks) else old(masks)[index := Some(Blank(R.Length0, R.Length1))]
    {
      if !fromCommandLine {
        mdrImages := mdrImages[index := Some(preview)];
        masks := masks[index := Some(Blank(R.Length0, R.Length1))];
      }
      mdrWidth, mdrHeight := R.Length0, R.Length1;
      listR, listG, listB := listR[index := R], listG[index := G], listB[index := B];
    }

    /** removeFile: the item at idx leaves m_data; the others keep their order. */
    method RemoveFile(idx: int)
      requires 0 <= idx < |data|
      modifies this`data
      ensures data == old(data[..idx] + data[idx + 1..])
    {
      data := data[..idx] + data[idx + 1..];
    }

    /**
     * checkEVvalues: when the largest EV is above 10 every time is shifted so
     * that it becomes 10; otherwise, when the smallest is below -10, so that
     * it becomes -10.
     */
    method CheckEvValues()
      requires Sized()
      modifies this`expotimes
      ensures expotimes == Calibrated(old(expotimes)) && Sized()
    {
      var top, bottom := EvBounds(expotimes);
      if top > EvLimit {
        ShiftAll(top - EvLimit);
      } else if bottom < -EvLimit {
        ShiftAll(bottom + EvLimit);
      }
    }

    /** One shifting loop of checkEVvalues: every exposure value moves down by d. */
    method ShiftAll(d: real)
      requires Sized()
      modifies this`expotimes
      ensures expotimes == Shifted(old(expotimes), d) && Sized()
    {
      for i := 0 to |fileList|
        invariant Sized()
        invariant forall m :: 0 <= m < |expotimes| ==>
                    expotimes[m] == if m < i then ShiftEv(old(expotimes)[m], d) else old(expotimes)[m]
      {
        expotimes := expotimes[i := ShiftEv(expotimes[i], d)];
      }
    }

    /**
     * setEV: the item gets exposure value new_ev; if it had none, the first
     * line of filesLackingExif goes.
     */
    method SetEv(newEv: real, idx: int)
      requires 0 <= idx < |expotimes|
      requires expotimes[idx] == Missing ==> |filesLackingExif| > 0
      modifies this`expotimes, this`filesLackingExif
      ensures expotimes == old(expotimes)[idx := Ev(newEv)]
      ensures filesLackingExif == if old(expotimes[idx]) == Missing then old(filesLackingExif[1..]) else old(filesLackingExif)
    {
      if expotimes[idx] == Missing {
        filesLackingExif := filesLackingExif[1..];
      }
      expotimes := expotimes[idx := Ev(newEv)];
    }

    /**
     * cropAgMasks: every mask is cut to the rectangle, by taking the first,
     * appending its copy and dropping it, once per mask.
     */
    method CropAgMasks(ca: Rect)
      requires AllValid(masks) && 0 < ca.width && 0 < ca.height
      modifies this`masks
      ensures masks == Cropped(old(masks), ca)
    {
      var n := |masks|;
      for k := 0 to n
        invariant masks == old(masks)[k..] + Cropped(old(masks)[..k], ca)
      {
        masks := masks[1..] + [Some(Copy(masks[0].value, ca))];
        assert Cropped(old(masks)[..k + 1], ca) == Cropped(old(masks)[..k], ca) + [Some(Copy(old(masks)[k].value, ca))];
      }
      assert old(masks)[..n] == old(masks);
    }

    /** cropLDR: every 8-bit image, then every mask, is cut to the rectangle. */
    method CropLdr(ca: Rect)
      requires AllValid(ldrImages) && AllValid(masks) && 0 < ca.width && 0 < ca.height
      modifies this`ldrImages, this`masks
      ensures ldrImages == Cropped(old(ldrImages), ca)
      ensures masks == Cropped(old(masks), ca)
    {
      var n := |ldrImages|;
      for k := 0 to n
        invariant ldrImages == old(ldrImages)[k..] + Cropped(old(ldrImages)[..k], ca)
        invariant masks == old(masks)
      {
        ldrImages := ldrImages[1..] + [Some(Copy(ldrImages[0].value, ca))];
        assert Cropped(old(ldrImages)[..k + 1], ca) == Cropped(old(ldrImages)[..k], ca) + [Some(Copy(old(ldrImages)[k].value, ca))];
      }
      assert old(ldrImages)[..n] == old(ldrImages);
      CropAgMasks(ca);
    }

    /** Every channel of one colour list replaced by a fresh w x h one (pfs::cut and swap). */
    method CutChannels(l: seq<array2?<real>>, w: int, h: int) returns (r: seq<array2?<real>>)
      requires 0 <= w && 0 <= h
      ensures |r| == |l| && Loaded(r)
      ensures forall i :: 0 <= i < |r| ==> fresh(r[i]) && r[i].Length0 == w && r[i].Length1 == h
    {
      r := [];
      for idx := 0 to |l|
        invariant |r| == idx && Loaded(r)
        invariant forall i :: 0 <= i < idx ==> fresh(r[i]) && r[i].Length0 == w && r[i].Length1 == h
      {
        var tmp := Cut(w, h);
        r := r + [tmp];
      }
    }

    /** The channel loops of cropMDR: every channel is replaced by a fresh w x h one. */
    method CutAllChannels(w: int, h: int)
      requires Sized() && 0 <= w && 0 <= h
      modifies this`listR, this`listG, this`listB
      ensures Sized() && Loaded(listR) && Loaded(listG) && Loaded(listB)
      ensures forall i :: 0 <= i < |listR| ==>
                fresh(listR[i]) && listR[i].Length0 == w && listR[i].Length1 == h &&
                fresh(listG[i]) && listG[i].Length0 == w && listG[i].Length1 == h &&
                fresh(listB[i]) && listB[i].Length0 == w && listB[i].Length1 == h
    {
      listR := CutChannels(listR, w, h);
      listG := CutChannels(listG, w, h);
      listB := CutChannels(listB, w, h);
    }

    /**
     * The preview loop of cropMDR: every preview is cut to the rectangle, and
     * for each one the first mask is replaced by a transparent w x h one.
     */
    method CropPreviews(ca: Rect, w: int, h: int)
      requires Sized() && AllValid(mdrImages) && 0 < ca.width && 0 < ca.height && 0 <= w && 0 <= h
      modifies this`mdrImages, this`masks
      ensures Sized()
      ensures mdrImages == Cropped(old(mdrImages), ca)
      ensures forall i :: 0 <= i < |masks| ==> masks[i] == Some(Blank(w, h))
    {
      var n := |mdrImages|;
      for k := 0 to n
        invariant Sized()
        invariant mdrImages == old(mdrImages)[k..] + Cropped(old(mdrImages)[..k], ca)
        invariant masks == old(masks)[k..] + Repeat(Some(Blank(w, h)), k)
      {
        RotateCropped(old(mdrImages), k, ca);
        mdrImages := mdrImages[1..] + [Some(Copy(mdrImages[0].value, ca))];
        RotateRepeat(old(masks), k, Some(Blank(w, h)));
        masks := masks[1..] + [Some(Blank(w, h))];
      }
      assert old(mdrImages)[..n] == old(mdrImages);
    }

    /**
     * The body of cropMDR for channels of newWidth x newHeight: the channels
     * are cut, every preview is cut to the rectangle while every mask is
     * replaced by a transparent newWidth x newHeight one, the stack size is
     * recorded, and cropAgMasks cuts the masks to the rectangle.
     */
    method CropMdrTo(ca: Rect, newWidth: int, newHeight: int)
      requires Sized() && AllValid(mdrImages) && 0 < ca.width && 0 < ca.height
      requires 0 <= newWidth && 0 <= newHeight
      modifies this`listR, this`listG, this`listB, this`mdrImages, this`masks, this`mdrWidth, this`mdrHeight
      ensures Sized() && Loaded(listR) && Loaded(listG) && Loaded(listB)
      ensures forall i :: 0 <= i < |listR| ==>
                fresh(listR[i]) && listR[i].Length0 == newWidth && listR[i].Length1 == newHeight &&
                fresh(listG[i]) && listG[i].Length0 == newWidth && listG[i].Length1 == newHeight &&
                fresh(listB[i]) && listB[i].Length0 == newWidth && listB[i].Length1 == newHeight
      ensures mdrImages == Cropped(old(mdrImages), ca)
      ensures forall i :: 0 <= i < |masks| ==> masks[i] == Some(Blank(ca.width, ca.height))
      ensures mdrWidth == newWidth && mdrHeight == newHeight
    {
      CutAllChannels(newWidth, newHeight);
      CropPreviews(ca, newWidth, newHeight);
      mdrWidth, mdrHeight := newWidth, newHeight;
      CroppedBlanks(masks, newWidth, newHeight, ca);
      CropAgMasks(ca);
    }

    /**
     * cropMDR as written: the channel size comes from QRect::getCoords, whose
     * bottom-right corner is inclusive, so the channels are one column and one
     * row smaller than the previews and masks.
     */
    method CropMdrAsWritten(ca: Rect)
      requires Sized() && AllValid(mdrImages) && 0 < ca.width && 0 < ca.height
      modifies this`listR, this`listG, this`listB, this`mdrImages, this`masks, this`mdrWidth, this`mdrHeight
      ensures Sized() && Loaded(listR) && Loaded(listG) && Loaded(listB)
      ensures forall i :: 0 <= i < |listR| ==>
                fresh(listR[i]) && listR[i].Length0 == ca.width - 1 && listR[i].Length1 == ca.height - 1 &&
                fresh(listG[i]) && listG[i].Length0 == ca.width - 1 && listG[i].Length1 == ca.height - 1 &&
                fresh(listB[i]) && listB[i].Length0 == ca.width - 1 && listB[i].Length1 == ca.height - 1
      ensures mdrImages == Cropped(old(mdrImages), ca)
      ensures forall i :: 0 <= i < |mdrImages| ==> mdrImages[i].value.width == ca.width
      ensures forall i :: 0 <= i < |masks| ==> masks[i] == Some(Blank(ca.width, ca.height))
      ensures mdrWidth == ca.width - 1 && mdrHeight == ca.height - 1
    {
      var xUl, yUl, xBr, yBr := ca.left, ca.top, Right(ca), Bottom(ca);
      CropMdrTo(ca, xBr - xUl, yBr - yUl);
    }

    /** cropMDR with the channels cut to the rectangle's own size, like the previews and masks. */
    method CropMdr(ca: Rect)
      requires Sized() && AllValid(mdrImages) && 0 < ca.width && 0 < ca.height
      modifies this`listR, this`listG, this`listB, this`mdrImages, this`masks, this`mdrWidth, this`mdrHeight
      ensures Sized() && Loaded(listR) && Loaded(listG) && Loaded(listB)
      ensures forall i :: 0 <= i < |listR| ==>
                fresh(listR[i]) && listR[i].Length0 == ca.width && listR[i].Length1 == ca.height &&
                fresh(listG[i]) && listG[i].Length0 == ca.width && listG[i].Length1 == ca.height &&
                fresh(listB[i]) && listB[i].Length0 == ca.width && listB[i].Length1 == ca.height
      ensures mdrImages == Cropped(old(mdrImages), ca)
      ensures forall i :: 0 <= i < |masks| ==> masks[i] == Some(Blank(ca.width, ca.height))
      ensures mdrWidth == ca.width && mdrHeight == ca.height
    {
      CropMdrTo(ca, ca.width, ca.height);
    }

    /** applyShiftsToImageStack: every 8-bit image with a nonzero offset is replaced by its shifted copy. */
    method ApplyShiftsToImageStack(offsets: seq<Offset>)
      requires AllValid(ldrImages) && |offsets| >= |ldrImages|
      modifies this`ldrImages
      ensures |ldrImages| == old(|ldrImages|) && AllValid(ldrImages)
      ensures forall i :: 0 <= i < |ldrImages| ==>
                ldrImages[i] == if offsets[i].dx == offsets[i].dy && offsets[i].dx == 0 then old(ldrImages[i])
                                else Some(ShiftPicture(old(ldrImages[i].value), offsets[i].dx, offsets[i].dy))
    {
      var n := |ldrImages|;
      for i := 0 to n
        invariant |ldrImages| == n && AllValid(ldrImages)
        invariant forall m :: 0 <= m < n ==>
                    ldrImages[m] == if m >= i || (offsets[m].dx == offsets[m].dy && offsets[m].dx == 0) then old(ldrImages[m])
                                    else Some(ShiftPicture(old(ldrImages[m].value), offsets[m].dx, offsets[m].dy))
      {
        if offsets[i].dx == offsets[i].dy && offsets[i].dx == 0 {
          continue;
        }
        var shifted := ShiftPicture(ldrImages[i].value, offsets[i].dx, offsets[i].dy);
        ldrImages := ldrImages[i := Some(shifted)];
      }
    }

    /**
     * applyShiftsToMdrImageStack: for every preview slot, the three channels
     * of an item with a nonzero offset are replaced by shifted ones; the
     * previews themselves are not shifted.
     */
    method ApplyShiftsToMdrImageStack(offsets: seq<Offset>)
      requires Sized() && Loaded(listR) && Loaded(listG) && Loaded(listB) && |offsets| >= |mdrImages|
      modifies this`listR, this`listG, this`listB
      ensures Sized() && Loaded(listR) && Loaded(listG) && Loaded(listB)
      ensures forall i :: 0 <= i < |listR| ==>
                if offsets[i].dx == offsets[i].dy && offsets[i].dx == 0
                then listR[i] == old(listR[i]) && listG[i] == old(listG[i]) && listB[i] == old(listB[i])
                else fresh(listR[i]) && fresh(listG[i]) && fresh(listB[i]) &&
                     listR[i].Length0 == old(listR[i].Length0) && listR[i].Length1 == old(listR[i].Length1) &&
                     listG[i].Length0 == old(listG[i].Length0) && listG[i].Length1 == old(listG[i].Length1) &&
                     listB[i].Length0 == old(listB[i].Length0) && listB[i].Length1 == old(listB[i].Length1)
    {
      var n := |mdrImages|;
      for i := 0 to n
        invariant Sized() && Loaded(listR) && Loaded(listG) && Loaded(listB)
        invariant forall m :: 0 <= m < n ==>
                    if m >= i || (offsets[m].dx == offsets[m].dy && offsets[m].dx == 0)
                    then listR[m] == old(listR[m]) && listG[m] == old(listG[m]) && listB[m] == old(listB[m])
                    else fresh(listR[m]) && fresh(listG[m]) && fresh(listB[m]) &&
                         listR[m].Length0 == old(listR[m].Length0) && listR[m].Length1 == old(listR[m].Length1) &&
                         listG[m].Length0 == old(listG[m].Length0) && listG[m].Length1 == old(listG[m].Length1) &&
                         listB[m].Length0 == old(listB[m].Length0) && listB[m].Length1 == old(listB[m].Length1)
      {
        if offsets[i].dx == offsets[i].dy && offsets[i].dx == 0 {
          continue;
        }
        var shiftedR := Shift(listR[i]);
        var shiftedG := Shift(listG[i]);
        var shiftedB := Shift(listB[i]);
        listR, listG, listB := listR[i := shiftedR], listG[i := shiftedG], listB[i := shiftedB];
      }
    }

    /**
     * doAntiGhosting on the float stack: every item but the good one is
     * blended with the good one under the two anti-ghosting masks; `ps` are
     * the items' lightness planes before the call.
     */
    method DoAntiGhosting(good: int, ghost ps: seq<Plane>)
      requires inputType != LdrInput && Sized()
      requires Loaded(listR) && Loaded(listG) && Loaded(listB)
      requires Stack(Present(listR), Present(listG), Present(listB)) && Distinct(Present(listR), Present(listG), Present(listB))
      requires PlanesOf(ps, Present(listR), Present(listG), Present(listB))
      requires 0 <= good < |listR| && AllValid(masks)
      requires MasksCover(Pictures(masks), listR[0].Length0, listR[0].Length1, |listR|)
      modifies Present(listR), Present(listG), Present(listB)
      ensures forall k, y, x {:trigger listR[k][x, y]} :: 0 <= k < |listR| && 0 <= y < listR[0].Length1 && 0 <= x < listR[0].Length0 ==>
                Rgb(listR[k][x, y], listG[k][x, y], listB[k][x, y]) ==
                if k == good then Rgb(old(listR[k][x, y]), old(listG[k][x, y]), old(listB[k][x, y]))
                else Blended(Rgb(old(listR[k][x, y]), old(listG[k][x, y]), old(listB[k][x, y])),
                             Rgb(old(listR[good][x, y]), old(listG[good][x, y]), old(listB[good][x, y])),
                             masks[k].value, masks[good].value, ps[k], ps[good], listR[0].Length0, listR[0].Length1, x, y)
    {
      BlendStack(Present(listR), Present(listG), Present(listB), Pictures(masks), good, ps);
    }

    /**
     * doAutoAntiGhostingMDR: every item but the reference h0 takes the
     * reference's rescaled pixels in the flagged, active grid cells. `ps`
     * and `hues` are the items' lightness and hue planes before the call.
     */
    method DoAutoAntiGhostingMdr(threshold: real, ln: real -> real, ghost ps: seq<Plane>, ghost hues: seq<Plane>)
      returns (ghost h0: int, ghost sf: seq<real>)
      requires Sized() && Loaded(listR) && Loaded(listG) && Loaded(listB)
      requires Stack(Present(listR), Present(listG), Present(listB)) && Distinct(Present(listR), Present(listG), Present(listB))
      requires PlanesOf(ps, Present(listR), Present(listG), Present(listB))
      requires Stats.HuesOf(hues, Present(listR), Present(listG), Present(listB))
      requires GridSize <= listR[0].Length0 && GridSize <= listR[0].Length1
      modifies Present(listR), Present(listG), Present(listB)
      ensures 0 <= h0 < |listR| && Stats.IsFirstMax(Stats.ScoresOf(hues, listR[0].Length0, listR[0].Length1), h0)
      ensures ScaledTo(sf, ps, h0, listR[0].Length0, listR[0].Length1)
      ensures var Rs, Gs, Bs := Present(listR), Present(listG), Present(listB);
              forall k, y, x {:trigger Rs[k][x, y]} :: 0 <= k < |listR| && 0 <= y < Rs[0].Length1 && 0 <= x < Rs[0].Length0 ==>
                  Rgb(Rs[k][x, y], Gs[k][x, y], Bs[k][x, y]) ==
                  if k != h0 && old(Corrected(Rs, Gs, Bs, expotimes, h0, ln,
                                              Rs[0].Length0 / GridSize, Rs[0].Length1 / GridSize, threshold, x, y))
                  then Rescale(Rgb(old(Rs[h0][x, y]), old(Gs[h0][x, y]), old(Bs[h0][x, y])), sf[k], MaxLightness)
                  else Rgb(old(Rs[k][x, y]), old(Gs[k][x, y]), old(Bs[k][x, y]))
    {
      assert Present(listR)[0] == listR[0];
      h0, sf := AutoAntiGhost(Present(listR), Present(listG), Present(listB), expotimes, threshold, ln, ps, hues);
    }
  }
}
