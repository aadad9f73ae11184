/**
 * The video and image modals (the same state machine appears on the
 * projects page and in the stand-alone modals component): opening the
 * video modal stores the embed URL, closing it clears the URL, the image
 * modal only toggles its flag, and Escape closes both.
 */
module Modals {
  import opened Wrappers
  import opened Strings
  import Embed

  datatype ModalState = ModalState(
    videoOpen: bool, videoUrl: string, projectName: string,
    imageOpen: bool, image: string, imageAlt: string)

  /**
   * `openVideoModal`: stores the embed URL and the project name and opens
   * the modal. When computing the embed URL throws, none of the three
   * updates happens and the error propagates.
   */
  function OpenVideoModal(st: ModalState, url: string, projectName: string): (r: Result<ModalState, Embed.EmbedError>)
    ensures r.Err? <==> Embed.GetEmbedUrl(url).Err?
    ensures r.Ok? ==> r.value.videoOpen && r.value.videoUrl == Embed.GetEmbedUrl(url).value
                      && r.value.projectName == projectName
    ensures r.Ok? ==> r.value.(videoOpen := st.videoOpen, videoUrl := st.videoUrl, projectName := st.projectName) == st
  {
    match Embed.GetEmbedUrl(url)
    case Err(e) => Err(e)
    case Ok(embed) => Ok(st.(videoOpen := true, videoUrl := embed, projectName := projectName))
  }

  /** `closeVideoModal`: closes the video modal and forgets its URL; the project name stays. */
  function CloseVideoModal(st: ModalState): (r: ModalState)
    ensures !r.videoOpen && r.videoUrl == []
    ensures r.(videoOpen := st.videoOpen, videoUrl := st.videoUrl) == st
  {
    st.(videoOpen := false, videoUrl := "")
  }

  /** `openImageModal`: stores the image and its alt text and opens the modal. */
  function OpenImageModal(st: ModalState, image: string, imageAlt: string): (r: ModalState)
    ensures r.imageOpen && r.image == image && r.imageAlt == imageAlt
    ensures r.(imageOpen := st.imageOpen, image := st.image, imageAlt := st.imageAlt) == st
  {
    st.(imageOpen := true, image := image, imageAlt := imageAlt)
  }

  /** `closeImageModal`: only the flag changes; the image and alt text stay stored. */
  function CloseImageModal(st: ModalState): (r: ModalState)
    ensures !r.imageOpen
    ensures r.(imageOpen := st.imageOpen) == st
  {
    st.(imageOpen := false)
  }

  /** The keydown handler: Escape closes both modals, any other key does nothing. */
  function HandleKey(st: ModalState, key: string): (r: ModalState)
    ensures key == "Escape" ==> !r.videoOpen && !r.imageOpen && r.videoUrl == []
    ensures key == "Escape" ==> r.projectName == st.projectName && r.image == st.image && r.imageAlt == st.imageAlt
    ensures key != "Escape" ==> r == st
  {
    if key == "Escape" then CloseImageModal(CloseVideoModal(st)) else st
  }

  /** Escape twice is Escape once. */
  lemma EscapeIdempotent(st: ModalState)
    ensures HandleKey(HandleKey(st, "Escape"), "Escape") == HandleKey(st, "Escape")
  {
  }

  /** Opening the video modal and closing it again leaves the URL cleared and the rest as before, except the project name. */
  lemma OpenThenCloseVideo(st: ModalState, url: string, projectName: string)
    requires !st.videoOpen && st.videoUrl == [] && Embed.GetEmbedUrl(url).Ok?
    ensures CloseVideoModal(OpenVideoModal(st, url, projectName).value) == st.(projectName := projectName)
  {
  }

  /** Opening and closing the image modal leaves it closed with the new image stored. */
  lemma OpenThenCloseImage(st: ModalState, image: string, imageAlt: string)
    requires !st.imageOpen
    ensures CloseImageModal(OpenImageModal(st, image, imageAlt)) == st.(image := image, imageAlt := imageAlt)
  {
  }

  /** What the open video modal shows. */
  datatype VideoView = Hidden | DriveLink(href: string) | Player(src: string)

  const DriveHost: string := "drive.google.com"

  /** Google Drive URLs get a link out instead of an embedded player. */
  function VideoViewOf(st: ModalState): (v: VideoView)
    ensures !st.videoOpen <==> v.Hidden?
    ensures v.DriveLink? <==> st.videoOpen && Contains(st.videoUrl, DriveHost)
    ensures v.DriveLink? ==> v.href == st.videoUrl
    ensures v.Player? ==> v.src == st.videoUrl
  {
    if !st.videoOpen then Hidden
    else if Contains(st.videoUrl, DriveHost) then DriveLink(st.videoUrl)
    else Player(st.videoUrl)
  }

  /** A Drive link passes through the embed step unchanged and is shown as a link. */
  lemma DriveVideoShownAsLink(st: ModalState, url: string, projectName: string)
    requires Contains(url, DriveHost) && !Embed.IsYouTube(url)
    requires !Contains(url, Embed.LoomGuard) && !Contains(url, Embed.ScreenStudioGuard)
    ensures OpenVideoModal(st, url, projectName).Ok?
    ensures VideoViewOf(OpenVideoModal(st, url, projectName).value) == DriveLink(url)
  {
  }
}
